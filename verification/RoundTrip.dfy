/** The two round trips between spans and logical values, and the frame of a write. */
module RoundTrip {
  import opened Bytes
  import opened Leaves
  import opened Schemas
  import opened Codec
  import opened ZeroStates

  /** After a write the tag names the variant its payload carries. */
  lemma TagAfter(s: Schema, b: seq<Byte>, v: Value, k: nat)
    requires Wf(s) && |b| == s.Size() && Fits(s, v) && k < s.Count() && s.KindOf(k).Payload?
    ensures v.kids[k].Case? && v.kids[k].pick < |s.KindOf(k).arms|
    ensures Tag(s, Encode(s, b, v), k) == s.KindOf(k).arms[v.kids[k].pick].disc
  {
    hide Load, Store, Encode, LeafWf;
    WfKid(s, k);
    EncodeParts(s, b, v);
    var t := s.KindOf(k).tag;
    WfKid(s, t);
    assert Coupled(s, v, k);
    OwnAtom(s.KindOf(t).s, Part(s, b, t), v.kids[t]);
    LeafRoundTrip(s.KindOf(t).s.leaf, Part(s, b, t)[..s.KindOf(t).s.Size()], v.kids[t].v);
  }

  /** Writing an owned leaf writes its front bytes. */
  lemma OwnAtom(s: Schema, x: seq<Byte>, v: Value)
    requires Wf(s) && s.Atom? && s.Size() <= |x| && Fits(s, v)
    ensures EncodeKind(Own(s), x, v)[..s.Size()] == LeafEncode(s.leaf, x[..s.Size()], v.v)
  {}

  /** Every value that fits, written over any bytes, makes a span the proof accepts and
      `copy_into` reads back, to every depth. */
  lemma {:induction false} EncodeThenDecode(s: Schema, b: seq<Byte>, v: Value)
    requires Wf(s) && |b| == s.Size() && Fits(s, v)
    ensures Valid(s, Encode(s, b, v))
    ensures Decode(s, Encode(s, b, v)) == v
    decreases s, 1
  {
    if s.Atom? {
      LeafRoundTrip(s.leaf, b, v.v);
    } else {
      var e := Encode(s, b, v);
      EncodeParts(s, b, v);
      forall k | 0 <= k < s.Count()
        ensures ValidKid(s, e, k) && DecodeKid(s, e, k) == v.kids[k]
      {
        WfKid(s, k);
        if s.KindOf(k).Payload? { TagAfter(s, b, v, k); }
        EncodeThenDecodeKind(s.KindOf(k), Tag(s, e, k), Part(s, b, k), v.kids[k]);
      }
      assert Decode(s, e).kids == v.kids;
    }
  }

  lemma {:induction false} EncodeThenDecodeKind(kind: Kind, d: nat, x: seq<Byte>, v: Value)
    requires WfKind(kind) && Room(kind, |x|) && FitsKind(kind, v)
    requires kind.Payload? ==> DistinctArms(kind.arms) && d == kind.arms[v.pick].disc
    ensures ValidKind(kind, d, EncodeKind(kind, x, v))
    ensures DecodeKind(kind, d, EncodeKind(kind, x, v)) == v
    decreases kind, 0
  {
    match kind
    case Own(s) => EncodeThenDecode(s, x[..s.Size()], v);
    case Optional(s) =>
      if v.Just? {
        EncodeThenDecode(s, x[..s.Size()], v.w);
        ValidNotZero(s, Encode(s, x[..s.Size()], v.w));
        PresentOver(x, Encode(s, x[..s.Size()], v.w));
      }
    case Payload(_, arms) =>
      assert Pick(arms, d) == v.pick;
      if arms[v.pick].Newtype? { EncodeThenDecode(arms[v.pick].s, x[..arms[v.pick].s.Size()], v.body); }
  }

  /** A storage whose value is not all zero is present, whatever its local padding holds. */
  lemma PresentOver(x: seq<Byte>, y: seq<Byte>)
    requires |y| <= |x| && !AllZero(y)
    ensures !AllZero(Over(x, y))
  {
    var i :| 0 <= i < |y| && y[i] != 0;
    assert Over(x, y)[i] == y[i];
  }

  /** A decoded tag names the variant decoded beside it. */
  lemma DecodeCoupled(s: Schema, b: seq<Byte>, k: nat)
    requires Wf(s) && !s.Atom? && |b| == s.Size() && Valid(s, b) && k < s.Count()
    ensures Coupled(s, Decode(s, b), k)
  {
    if s.KindOf(k).Payload? {
      WfKid(s, k);
      KidDecoded(s, b, k);
      KidDecoded(s, b, s.KindOf(k).tag);
    }
  }

  /** A proved span holds a value that fits, and writing that value back changes no byte. */
  lemma {:induction false} DecodeThenEncode(s: Schema, b: seq<Byte>)
    requires Wf(s) && |b| == s.Size() && Valid(s, b)
    ensures Fits(s, Decode(s, b))
    ensures Encode(s, b, Decode(s, b)) == b
    decreases s, 1
  {
    if s.Atom? {
      LeafIdentity(s.leaf, b);
    } else {
      var v := Decode(s, b);
      forall k | 0 <= k < s.Count()
        ensures FitsKind(s.KindOf(k), v.kids[k]) && Coupled(s, v, k)
        ensures EncodeKind(s.KindOf(k), Part(s, b, k), v.kids[k]) == Part(s, b, k)
      {
        WfKid(s, k);
        assert ValidKid(s, b, k) && v.kids[k] == DecodeKid(s, b, k);
        DecodeThenEncodeKind(s.KindOf(k), Tag(s, b, k), Part(s, b, k));
        DecodeCoupled(s, b, k);
      }
      EncodeParts(s, b, v);
      SameParts(s, Encode(s, b, v), b);
    }
  }

  lemma {:induction false} DecodeThenEncodeKind(kind: Kind, d: nat, x: seq<Byte>)
    requires WfKind(kind) && Room(kind, |x|) && ValidKind(kind, d, x)
    ensures FitsKind(kind, DecodeKind(kind, d, x))
    ensures EncodeKind(kind, x, DecodeKind(kind, d, x)) == x
    decreases kind, 0
  {
    match kind
    case Own(s) => DecodeThenEncode(s, x[..s.Size()]);
    case Optional(s) => if !AllZero(x) { DecodeThenEncode(s, x[..s.Size()]); }
    case Payload(_, arms) =>
      var j := Pick(arms, d);
      if arms[j].Newtype? { DecodeThenEncode(arms[j].s, x[..arms[j].s.Size()]); }
  }

  /** Some span the proof accepts reads as `v`. */
  ghost predicate Representable(s: Schema, v: Value)
    requires Wf(s)
  {
    exists b: seq<Byte> :: |b| == s.Size() && Valid(s, b) && Decode(s, b) == v
  }

  /** The values that fit are exactly the values some valid span holds: every string of the capacity
      and the prefix, every variant with its own tag, and nothing else. */
  lemma FitsIffRepresentable(s: Schema, v: Value)
    requires Wf(s)
    ensures Fits(s, v) <==> Representable(s, v)
  {
    if Fits(s, v) {
      EncodeThenDecode(s, Zeros(s.Size()), v);
    } else if Representable(s, v) {
      var b: seq<Byte> :| |b| == s.Size() && Valid(s, b) && Decode(s, b) == v;
      DecodeThenEncode(s, b);
    }
  }

  /** The proof accepts a span exactly when the span already is some value written over itself. */
  lemma ValidIffWritten(s: Schema, b: seq<Byte>)
    requires Wf(s) && |b| == s.Size()
    ensures Valid(s, b) <==> exists v :: Fits(s, v) && Encode(s, b, v) == b
  {
    hide Wf, Valid, Decode, Fits, Encode;
    if Valid(s, b) {
      DecodeThenEncode(s, b);
    } else if v :| Fits(s, v) && Encode(s, b, v) == b {
      EncodeThenDecode(s, b, v);
    }
  }

  /** Writing a value twice is writing it once. */
  lemma EncodeTwice(s: Schema, b: seq<Byte>, v: Value)
    requires Wf(s) && |b| == s.Size() && Fits(s, v)
    ensures Encode(s, Encode(s, b, v), v) == Encode(s, b, v)
  {
    EncodeThenDecode(s, b, v);
    DecodeThenEncode(s, Encode(s, b, v));
  }
}
