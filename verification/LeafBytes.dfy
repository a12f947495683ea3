/** Leaves byte by byte: what every active byte holds, which storages the proof accepts, which sources fit,
    and where the parts of a string lie, each in terms of numbers, digits and octets. */
module LeafBytes {
  import opened Bytes
  import opened Leaves
  import opened Alignments
  import opened Unicode

  /** The `w.width` bytes at `at` are the base-256 digits of `n`, in the byte order of `w`. */
  predicate Holds(b: seq<Byte>, at: nat, w: Wire, n: nat) {
    at + w.width <= |b| && forall i :: 0 <= i < w.width ==> b[at + i] == n / Pow256(Weight(w.order, w.width, i)) % 256
  }

  /** The unit at `at` is `n`: one byte, or two in the unit's own order. */
  predicate HoldsUnit(b: seq<Byte>, at: nat, u: Units, n: nat) {
    && at + u.Width() <= |b|
    && match u
       case Narrow => b[at] == n
       case Wide(_, Little) => b[at] == n % 256 && b[at + 1] == n / 256
       case Wide(_, Big) => b[at] == n / 256 && b[at + 1] == n % 256
  }

  predicate HoldsUnits(b: seq<Byte>, at: nat, u: Units, us: seq<nat>) {
    forall i :: 0 <= i < |us| ==> HoldsUnit(b, at + u.Span(i), u, us[i])
  }

  lemma StoreHolds(w: Wire, n: nat)
    ensures Holds(Store(w, n), 0, w, n)
  {
    forall i | 0 <= i < w.width ensures Store(w, n)[i] == n / Pow256(Weight(w.order, w.width, i)) % 256 {
      StoreAt(w, n, i);
    }
  }

  lemma StoreUnit(u: Units, n: nat)
    requires n < Pow256(u.Width())
    ensures HoldsUnit(Store(u.AsWire(), n), 0, u, n)
  {
    assert Pow256(0) == 1 && Pow256(1) == 256 && Pow256(2) == 65536;
    var w := u.AsWire();
    StoreAt(w, n, 0);
    if u.Wide? { StoreAt(w, n, 1); }
  }

  lemma {:induction false} EncodedUnits(u: Units, us: seq<nat>)
    requires UnitsOk(u, us)
    ensures HoldsUnits(EncodeUnits(u, us), 0, u, us)
  {
    hide Store;
    if us != [] {
      var head, rest := Store(u.AsWire(), us[0]), EncodeUnits(u, us[1..]);
      StoreUnit(u, us[0]);
      EncodedUnits(u, us[1..]);
      forall i | 0 <= i < |us| ensures HoldsUnit(head + rest, u.Span(i), u, us[i]) {
        assert i > 0 ==> HoldsUnit(rest, u.Span(i - 1), u, us[1..][i - 1]);
      }
    }
  }

  /** Bytes found again further on hold the same. */
  lemma UnitsAt(b: seq<Byte>, at: nat, code: seq<Byte>, u: Units, us: seq<nat>)
    requires at + |code| <= |b| && b[at..at + |code|] == code && HoldsUnits(code, 0, u, us)
    ensures HoldsUnits(b, at, u, us)
  {
    forall i | 0 <= i < |us| ensures HoldsUnit(b, at + u.Span(i), u, us[i]) {
      assert HoldsUnit(code, u.Span(i), u, us[i]);
      assert forall j :: 0 <= j < |code| ==> b[at..at + |code|][j] == code[j];
    }
  }

  /** What a committed leaf holds: a number, a discriminant and a length as digits in their own byte order, a
      Boolean as 0 or 1, fixed bytes as they are, string units in the target's order behind the prefix, and a
      terminator after the units of a C string. */
  predicate Written(l: LeafType, v: LeafValue, y: seq<Byte>)
    requires LeafTyped(l, v)
  {
    match l
    case Scalar(w) => Holds(y, 0, w, v.n)
    case Enum(w, _) => Holds(y, 0, w, v.n)
    case Flag => y == [if v.b then 1 else 0]
    case Blob(_) => y == v.bytes
    case Text(prefix, units, _) =>
      Holds(y, 0, prefix, |v.us|) && HoldsUnits(y, DataOff(prefix, units), units, v.us)
    case CText(units, _) => HoldsUnits(y, 0, units, v.us) && HoldsUnit(y, units.Span(|v.us|), units, 0)
  }

  /** A commit writes the digits, the octets and the units of its value. */
  lemma WrittenLeaf(l: LeafType, x: seq<Byte>, v: LeafValue)
    requires LeafWf(l) && |x| == LeafSize(l) && LeafFits(l, v)
    ensures Written(l, v, LeafEncode(l, x, v))
  {
    match l
    case Scalar(w) => StoreHolds(w, v.n);
    case Enum(w, _) => StoreHolds(w, v.n);
    case Text(_, _, _) => WrittenText(l, x, v);
    case CText(_, _) => WrittenCText(l, x, v);
    case _ =>
  }

  lemma WrittenText(l: LeafType, x: seq<Byte>, v: LeafValue)
    requires LeafWf(l) && l.Text? && |x| == LeafSize(l) && LeafFits(l, v)
    ensures var y := LeafEncode(l, x, v);
      Holds(y, 0, l.prefix, |v.us|) && HoldsUnits(y, DataOff(l.prefix, l.units), l.units, v.us)
  {
    hide Utf8, AlignUp, Splice, Store, EncodeUnits, HoldsUnits, DataOff;
    var y, head, code := LeafEncode(l, x, v), Store(l.prefix, |v.us|), EncodeUnits(l.units, v.us);
    TwoSplices(x, DataOff(l.prefix, l.units), code, head);
    StoreHolds(l.prefix, |v.us|);
    assert forall j :: 0 <= j < |head| ==> y[j] == y[..|head|][j];
    EncodedUnits(l.units, v.us);
    UnitsAt(y, DataOff(l.prefix, l.units), code, l.units, v.us);
  }

  lemma WrittenCText(l: LeafType, x: seq<Byte>, v: LeafValue)
    requires LeafWf(l) && l.CText? && |x| == LeafSize(l) && LeafFits(l, v)
    ensures var y := LeafEncode(l, x, v);
      HoldsUnits(y, 0, l.units, v.us) && HoldsUnit(y, l.units.Span(|v.us|), l.units, 0)
  {
    hide Splice, EncodeUnits;
    var us := v.us + [0];
    assert Pow256(l.units.Width()) > 0;
    EncodedUnits(l.units, us);
    UnitsAt(LeafEncode(l, x, v), 0, EncodeUnits(l.units, us), l.units, us);
    assert us[|v.us|] == 0;
    forall i | 0 <= i < |v.us| ensures HoldsUnit(LeafEncode(l, x, v), l.units.Span(i), l.units, v.us[i]) {
      assert us[i] == v.us[i];
    }
  }

  // ----- what the proof accepts -----

  /** The units read are what the bytes hold. */
  lemma {:induction false} DecodedUnits(u: Units, b: seq<Byte>)
    requires u.Whole(|b|)
    ensures HoldsUnits(b, 0, u, DecodeUnits(u, b))
  {
    EncodeDecodeUnits(u, b);
    EncodedUnits(u, DecodeUnits(u, b));
  }

  lemma NarrowUnits(b: seq<Byte>)
    ensures DecodeUnits(Narrow, b) == b
  {
    DecodedUnits(Narrow, b);
    forall i | 0 <= i < |b| ensures DecodeUnits(Narrow, b)[i] == b[i] {
      assert HoldsUnit(b, Narrow.Span(i), Narrow, DecodeUnits(Narrow, b)[i]);
    }
  }

  /** The storages the proof accepts: a Boolean is 0 or 1, a discriminant is a declared one, a length is within
      the capacity and UTF-8 data encodes scalar values, a C string has a zero unit; numbers and fixed bytes
      are always accepted. */
  ghost predicate Acceptable(l: LeafType, x: seq<Byte>)
    requires LeafWf(l) && |x| == LeafSize(l)
  {
    match l
    case Scalar(_) => true
    case Blob(_) => true
    case Flag => x == [0] || x == [1]
    case Enum(w, discs) => Sum(w.order, x, |x|) in discs
    case Text(prefix, units, cap) =>
      var n, o := Sum(prefix.order, x[..prefix.width], prefix.width), DataOff(prefix, units);
      n <= cap && (units.Narrow? ==> EncodesText(x[o..o + n]))
    case CText(units, cap) => exists k :: 0 <= k < cap && HoldsUnit(x, units.Span(k), units, 0)
  }

  /** The bytes are the UTF-8 encoding of some scalar values. */
  ghost predicate EncodesText(b: seq<Byte>) { exists cs :: AllScalarValues(cs) && Encoded(cs) == b }

  /** The generated leaf proof decides just that. */
  lemma AcceptedLeaf(l: LeafType, x: seq<Byte>)
    requires LeafWf(l) && |x| == LeafSize(l)
    ensures LeafValid(l, x) <==> Acceptable(l, x)
  {
    match l
    case Enum(w, _) => LoadSum(w.order, x);
    case Text(_, _, _) => AcceptedText(l, x);
    case CText(_, _) => AcceptedCText(l, x);
    case _ =>
  }

  lemma AcceptedText(l: LeafType, x: seq<Byte>)
    requires LeafWf(l) && l.Text? && |x| == LeafSize(l)
    ensures LeafValid(l, x) <==> Acceptable(l, x)
  {
    hide Utf8, AlignUp, Load, Sum, DecodeUnits;
    LoadSum(l.prefix.order, x[..l.prefix.width]);
    if Length(l, x) <= l.cap && l.units.Narrow? {
      var o := DataOff(l.prefix, l.units);
      NarrowUnits(x[o..o + Length(l, x)]);
      Utf8Exactly(Active(l, x));
    }
  }

  lemma AcceptedCText(l: LeafType, x: seq<Byte>)
    requires LeafWf(l) && l.CText? && |x| == LeafSize(l)
    ensures LeafValid(l, x) <==> Acceptable(l, x)
  {
    hide DecodeUnits;
    DecodedUnits(l.units, x);
    var us := Data(l, x);
    forall k | 0 <= k < l.cap ensures HoldsUnit(x, l.units.Span(k), l.units, 0) <==> us[k] == 0 {
      assert HoldsUnit(x, l.units.Span(k), l.units, us[k]);
    }
  }

  /** What is read is what the bytes hold: byte 0 is `false`, byte 1 is `true`, numbers are their digits. */
  lemma ReadLeaf(l: LeafType, x: seq<Byte>)
    requires LeafWf(l) && |x| == LeafSize(l) && LeafValid(l, x)
    ensures LeafTyped(l, LeafDecode(l, x)) && Written(l, LeafDecode(l, x), x)
  {
    LeafIdentity(l, x);
    WrittenLeaf(l, x, LeafDecode(l, x));
  }

  // ----- what fits, and where it lies -----

  /** The string sources Rust's types admit, of any length: UTF-8 in byte strings, no zero unit in C strings. */
  lemma TypedText(l: LeafType, us: seq<nat>)
    requires LeafWf(l) && (l.Text? || l.CText?)
    ensures LeafTyped(l, Chars(us)) <==>
      && UnitsOk(l.units, us) && (l.CText? ==> 0 !in us)
      && (l.Text? && l.units.Narrow? ==> exists cs :: AllScalarValues(cs) && Encoded(cs) == us)
  {
    hide Utf8;
    Utf8Exactly(us);
  }

  /** Of these, the ones that fit have room for their units and a length that survives the prefix or, for a C
      string, room for the terminator too. */
  lemma FittingText(l: LeafType, us: seq<nat>)
    requires LeafWf(l) && LeafTyped(l, Chars(us))
    ensures l.Text? ==> (LeafFits(l, Chars(us)) <==>
      l.units.Span(|us|) <= l.units.Span(l.cap) && Load(l.prefix.order, Store(l.prefix, |us|)) == |us|)
    ensures l.CText? ==> (LeafFits(l, Chars(us)) <==> l.units.Span(|us| + 1) <= LeafSize(l))
  {
    if l.Text? && |us| < Pow256(l.prefix.width) { LoadStore(l.prefix, |us|); }
  }

  /** The units of a prefixed string start at the first multiple of their alignment after the prefix, and the
      storage ends at the first multiple of its own after the units. */
  lemma TextPlaced(l: LeafType, o: nat)
    requires LeafWf(l) && l.Text?
    ensures Multiple(DataOff(l.prefix, l.units), l.units.Align()) && Multiple(LeafSize(l), LeafAlign(l))
    ensures l.prefix.width <= o && Multiple(o, l.units.Align()) ==> DataOff(l.prefix, l.units) <= o
    ensures DataOff(l.prefix, l.units) + l.units.Span(l.cap) <= o && Multiple(o, LeafAlign(l)) ==> LeafSize(l) <= o
  {
    hide AlignUp;
    var d, end := l.prefix.width, DataOff(l.prefix, l.units) + l.units.Span(l.cap);
    AlignUpMultiple(d, l.units.Align());
    AlignUpMultiple(end, LeafAlign(l));
    if d <= o && Multiple(o, l.units.Align()) { AlignUpLeast(d, l.units.Align(), o); }
    if end <= o && Multiple(o, LeafAlign(l)) { AlignUpLeast(end, LeafAlign(l), o); }
  }
}
