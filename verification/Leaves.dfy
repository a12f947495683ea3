/** Leaf fields: scalars, Booleans, closed scalar enums, fixed bytes and the four bounded
    string forms, with their proof (`src/strings.rs`, `src/wire.rs`), their decoding and the
    overwriting that a committed value performs. */
module Leaves {
  import opened Bytes

  /** The least multiple of `a` that is at least `x`. */
  function AlignUp(x: nat, a: nat): (r: nat)
    ensures x <= r && (a > 0 ==> r < x + a)
  {
    if x == 0 || a == 0 then x else if x <= a then a else a + AlignUp(x - a, a)
  }

  /** The unit of a string form: a byte, or a native `u16`. */
  datatype Units = Narrow | Wide(align: nat, order: Order) {
    function Width(): (w: nat) ensures w == 1 || w == 2 { if Narrow? then 1 else 2 }
    function Align(): nat { if Narrow? then 1 else align }
    /** Bytes taken by `n` units. */
    function Span(n: nat): nat { if Narrow? then n else n + n }
    predicate Whole(bytes: nat) { Narrow? || bytes % 2 == 0 }
    function AsWire(): (w: Wire) ensures w.width == Width() {
      if Narrow? then Wire(1, 1, Little) else Wire(2, align, order)
    }
  }

  datatype LeafType =
    | Scalar(w: Wire)
    | Flag
    | Enum(w: Wire, discs: seq<nat>)
    | Blob(n: nat)
    | Text(prefix: Wire, units: Units, cap: nat)
    | CText(units: Units, cap: nat)

  /** Logical leaf values. Integers and floats are their bit patterns. */
  datatype LeafValue = Bits(n: nat) | Bool(b: bool) | Raw(bytes: seq<Byte>) | Chars(us: seq<nat>)

  function Max(a: nat, b: nat): nat { if a < b then b else a }

  predicate WireWf(w: Wire) { w.width > 0 && w.align > 0 }

  predicate Distinct(xs: seq<nat>) {
    forall i, j :: 0 <= i < j < |xs| ==> xs[i] != xs[j]
  }

  predicate LeafWf(l: LeafType) {
    match l
    case Scalar(w) => WireWf(w)
    case Flag => true
    case Enum(w, discs) => WireWf(w) && Distinct(discs) && forall d :: d in discs ==> d < Pow256(w.width)
    case Blob(n) => n > 0
    case Text(prefix, units, _) => WireWf(prefix) && units.Align() > 0
    case CText(units, cap) => units.Align() > 0 && cap > 0
  }

  /** `DATA_OFFSET` of a length-prefixed string: the prefix, then the gap up to the units. */
  function DataOff(prefix: Wire, units: Units): (o: nat)
    ensures o >= prefix.width
  {
    AlignUp(prefix.width, units.Align())
  }

  function LeafAlign(l: LeafType): (a: nat)
    ensures LeafWf(l) ==> a > 0
  {
    match l
    case Scalar(w) => w.align
    case Flag => 1
    case Enum(w, _) => w.align
    case Blob(_) => 1
    case Text(prefix, units, _) => Max(prefix.align, units.Align())
    case CText(units, _) => units.Align()
  }

  function LeafSize(l: LeafType): (n: nat)
    ensures LeafWf(l) ==> n > 0
    ensures l.Text? ==> n >= DataOff(l.prefix, l.units) + l.units.Span(l.cap)
  {
    match l
    case Scalar(w) => w.width
    case Flag => 1
    case Enum(w, _) => w.width
    case Blob(n) => n
    case Text(prefix, units, cap) => AlignUp(DataOff(prefix, units) + units.Span(cap), LeafAlign(l))
    case CText(units, cap) => units.Span(cap)
  }

  // ----- string units -----

  predicate UnitsOk(u: Units, us: seq<nat>) {
    forall i :: 0 <= i < |us| ==> us[i] < Pow256(u.Width())
  }

  function EncodeUnits(u: Units, us: seq<nat>): (b: seq<Byte>)
    ensures |b| == u.Span(|us|)
  {
    if us == [] then [] else Store(u.AsWire(), us[0]) + EncodeUnits(u, us[1..])
  }

  function DecodeUnits(u: Units, b: seq<Byte>): (us: seq<nat>)
    requires u.Whole(|b|)
    ensures u.Span(|us|) == |b| && UnitsOk(u, us)
  {
    var w := u.Width();
    if b == [] then [] else [Load(u.AsWire().order, b[..w])] + DecodeUnits(u, b[w..])
  }

  lemma {:induction false} DecodeEncodeUnits(u: Units, us: seq<nat>)
    requires UnitsOk(u, us)
    ensures DecodeUnits(u, EncodeUnits(u, us)) == us
  {
    if us != [] {
      var head, w := Store(u.AsWire(), us[0]), u.Width();
      LoadStore(u.AsWire(), us[0]);
      DecodeEncodeUnits(u, us[1..]);
      assert EncodeUnits(u, us)[..w] == head && EncodeUnits(u, us)[w..] == EncodeUnits(u, us[1..]);
    }
  }

  lemma {:induction false} EncodeDecodeUnits(u: Units, b: seq<Byte>)
    requires u.Whole(|b|)
    ensures EncodeUnits(u, DecodeUnits(u, b)) == b
  {
    if b != [] {
      var w := u.Width();
      StoreLoad(u.AsWire(), b[..w]);
      EncodeDecodeUnits(u, b[w..]);
      assert DecodeUnits(u, b)[1..] == DecodeUnits(u, b[w..]);
    }
  }

  lemma {:induction false} DecodeUnitsConcat(u: Units, x: seq<Byte>, y: seq<Byte>)
    requires u.Whole(|x|) && u.Whole(|y|)
    ensures DecodeUnits(u, x + y) == DecodeUnits(u, x) + DecodeUnits(u, y)
  {
    hide Load;
    var w := u.Width();
    if x == [] {
      assert x + y == y;
    } else {
      DecodeUnitsConcat(u, x[w..], y);
      assert (x + y)[..w] == x[..w] && (x + y)[w..] == x[w..] + y;
    }
  }

  /** The index of the first zero unit, or the length when there is none. */
  function FirstNul(us: seq<nat>): (k: nat)
    ensures k <= |us| && (forall i :: 0 <= i < k ==> us[i] != 0) && (k < |us| ==> us[k] == 0)
  {
    if us == [] || us[0] == 0 then 0 else 1 + FirstNul(us[1..])
  }

  // ----- UTF-8, section 4 of RFC 3629 -----

  predicate In(s: seq<nat>, i: nat, lo: nat, hi: nat) { i < |s| && lo <= s[i] <= hi }

  /** Length of the well-formed sequence at the front of `s`, or 0. */
  function Utf8Head(s: seq<nat>): (n: nat)
    ensures n <= |s|
  {
    if In(s, 0, 0, 0x7F) then 1
    else if In(s, 0, 0xC2, 0xDF) && In(s, 1, 0x80, 0xBF) then 2
    else if In(s, 2, 0x80, 0xBF) && (
              || (In(s, 0, 0xE0, 0xE0) && In(s, 1, 0xA0, 0xBF))
              || (In(s, 0, 0xE1, 0xEC) && In(s, 1, 0x80, 0xBF))
              || (In(s, 0, 0xED, 0xED) && In(s, 1, 0x80, 0x9F))
              || (In(s, 0, 0xEE, 0xEF) && In(s, 1, 0x80, 0xBF))) then 3
    else if In(s, 2, 0x80, 0xBF) && In(s, 3, 0x80, 0xBF) && (
              || (In(s, 0, 0xF0, 0xF0) && In(s, 1, 0x90, 0xBF))
              || (In(s, 0, 0xF1, 0xF3) && In(s, 1, 0x80, 0xBF))
              || (In(s, 0, 0xF4, 0xF4) && In(s, 1, 0x80, 0x8F))) then 4
    else 0
  }

  predicate Utf8(s: seq<nat>) {
    s == [] || (Utf8Head(s) > 0 && Utf8(s[Utf8Head(s)..]))
  }

  // ----- leaf proof, decoding, sources and overwriting -----

  /** The data units a terminated string storage holds. */
  function Data(l: LeafType, x: seq<Byte>): (us: seq<nat>)
    requires LeafWf(l) && l.CText? && |x| == LeafSize(l)
    ensures |us| == l.cap && UnitsOk(l.units, us)
  {
    DecodeUnits(l.units, x)
  }

  /** The length prefix as loaded. */
  function Length(l: LeafType, x: seq<Byte>): (n: nat)
    requires LeafWf(l) && l.Text? && |x| == LeafSize(l)
    ensures n < Pow256(l.prefix.width)
  {
    Load(l.prefix.order, x[..l.prefix.width])
  }

  /** The units the length prefix declares active. */
  function Active(l: LeafType, x: seq<Byte>): (us: seq<nat>)
    requires LeafWf(l) && l.Text? && |x| == LeafSize(l) && Length(l, x) <= l.cap
    ensures |us| == Length(l, x) && UnitsOk(l.units, us)
  {
    var o := DataOff(l.prefix, l.units);
    DecodeUnits(l.units, x[o..o + l.units.Span(Length(l, x))])
  }

  /** Whether the generated proof accepts the storage `x`. */
  predicate LeafValid(l: LeafType, x: seq<Byte>)
    requires LeafWf(l) && |x| == LeafSize(l)
  {
    match l
    case Scalar(_) => true
    case Flag => x[0] <= 1
    case Enum(w, discs) => Load(w.order, x) in discs
    case Blob(_) => true
    case Text(_, units, cap) => Length(l, x) <= cap && (units.Narrow? ==> Utf8(Active(l, x)))
    case CText(_, cap) => FirstNul(Data(l, x)) < cap
  }

  function LeafDecode(l: LeafType, x: seq<Byte>): (v: LeafValue)
    requires LeafWf(l) && |x| == LeafSize(l) && LeafValid(l, x)
  {
    match l
    case Scalar(w) => Bits(Load(w.order, x))
    case Flag => Bool(x[0] == 1)
    case Enum(w, _) => Bits(Load(w.order, x))
    case Blob(_) => Raw(x)
    case Text(_, _, _) => Chars(Active(l, x))
    case CText(_, _) => Chars(Data(l, x)[..FirstNul(Data(l, x))])
  }

  /** What the Rust type of the field guarantees of a source value. */
  predicate LeafTyped(l: LeafType, v: LeafValue) {
    match l
    case Scalar(w) => v.Bits? && v.n < Pow256(w.width)
    case Flag => v.Bool?
    case Enum(_, discs) => v.Bits? && v.n in discs
    case Blob(n) => v.Raw? && |v.bytes| == n
    case Text(_, units, _) => v.Chars? && UnitsOk(units, v.us) && (units.Narrow? ==> Utf8(v.us))
    case CText(units, _) => v.Chars? && UnitsOk(units, v.us) && forall i :: 0 <= i < |v.us| ==> v.us[i] != 0
  }

  /** The checks a string source must pass: `preflight_length_prefixed`, `preflight_c_str`
      and their wide forms. Other leaves accept every typed source. */
  predicate LeafPreflight(l: LeafType, v: LeafValue)
    requires LeafTyped(l, v)
  {
    match l
    case Text(prefix, _, cap) => |v.us| <= cap && |v.us| < Pow256(prefix.width)
    case CText(_, cap) => |v.us| + 1 <= cap
    case _ => true
  }

  predicate LeafFits(l: LeafType, v: LeafValue) {
    LeafTyped(l, v) && LeafPreflight(l, v)
  }

  /** The bytes `store_preflighted` copies for a leaf that is not a string. */
  function Plain(l: LeafType, v: LeafValue): (y: seq<Byte>)
    requires !l.Text? && !l.CText? && LeafTyped(l, v)
    ensures |y| == LeafSize(l)
  {
    match l
    case Scalar(w) => Store(w, v.n)
    case Flag => [if v.b then 1 else 0]
    case Enum(w, _) => Store(w, v.n)
    case Blob(_) => v.bytes
  }

  /** The storage `x` after the value `v` is written over it. */
  function LeafEncode(l: LeafType, x: seq<Byte>, v: LeafValue): (y: seq<Byte>)
    requires LeafWf(l) && |x| == LeafSize(l) && LeafFits(l, v)
    ensures |y| == |x|
  {
    match l
    case Text(prefix, units, _) =>
      Splice(Splice(x, DataOff(prefix, units), EncodeUnits(units, v.us)), 0, Store(prefix, |v.us|))
    case CText(units, _) => Splice(x, 0, EncodeUnits(units, v.us + [0]))
    case _ => Plain(l, v)
  }

  /** Whether byte `i` of the storage belongs to the value `v`: the prefix and the active units
      of a string, every byte of any other leaf. */
  predicate LeafActive(l: LeafType, v: LeafValue, i: nat)
    requires LeafWf(l) && LeafTyped(l, v)
  {
    match l
    case Text(prefix, units, _) =>
      var o := DataOff(prefix, units);
      i < prefix.width || o <= i < o + units.Span(|v.us|)
    case CText(units, _) => i < units.Span(|v.us| + 1)
    case _ => true
  }

  // ----- the leaf theorems -----

  lemma TwoSplices(x: seq<Byte>, o: nat, data: seq<Byte>, head: seq<Byte>)
    requires |head| <= o && o + |data| <= |x|
    ensures var y := Splice(Splice(x, o, data), 0, head); y[..|head|] == head && y[o..o + |data|] == data
  {
    SpliceAside(Splice(x, o, data), 0, head, o, o + |data|);
  }

  lemma TextRoundTrip(l: LeafType, x: seq<Byte>, v: LeafValue)
    requires LeafWf(l) && l.Text? && |x| == LeafSize(l) && LeafFits(l, v)
    ensures Length(l, LeafEncode(l, x, v)) == |v.us|
    ensures Active(l, LeafEncode(l, x, v)) == v.us
  {
    hide Utf8, AlignUp, Splice, Store, Load, EncodeUnits, DecodeUnits;
    LoadStore(l.prefix, |v.us|);
    TwoSplices(x, DataOff(l.prefix, l.units), EncodeUnits(l.units, v.us), Store(l.prefix, |v.us|));
    DecodeEncodeUnits(l.units, v.us);
  }

  lemma CTextRoundTrip(l: LeafType, x: seq<Byte>, v: LeafValue)
    requires LeafWf(l) && l.CText? && |x| == LeafSize(l) && LeafFits(l, v)
    ensures v.us + [0] <= Data(l, LeafEncode(l, x, v))
  {
    hide EncodeUnits, DecodeUnits;
    var code := EncodeUnits(l.units, v.us + [0]);
    DecodeEncodeUnits(l.units, v.us + [0]);
    assert LeafEncode(l, x, v) == code + x[|code|..];
    DecodeUnitsConcat(l.units, code, x[|code|..]);
  }

  /** A preflighted value written over any storage is proved and read back, unchanged. */
  lemma LeafRoundTrip(l: LeafType, x: seq<Byte>, v: LeafValue)
    requires LeafWf(l) && |x| == LeafSize(l) && LeafFits(l, v)
    ensures LeafValid(l, LeafEncode(l, x, v))
    ensures LeafDecode(l, LeafEncode(l, x, v)) == v
  {
    hide Utf8, AlignUp, EncodeUnits, DecodeUnits, Splice, StoreLittle, LoadLittle;
    match l
    case Scalar(w) => LoadStore(w, v.n);
    case Enum(w, _) => LoadStore(w, v.n);
    case Text(_, _, _) => TextRoundTrip(l, x, v);
    case CText(_, _) =>
      CTextRoundTrip(l, x, v);
      var d := Data(l, LeafEncode(l, x, v));
      assert d[..|v.us|] == v.us && d[|v.us|] == (v.us + [0])[|v.us|];
    case _ =>
  }

  lemma TextIdentity(l: LeafType, x: seq<Byte>)
    requires LeafWf(l) && l.Text? && |x| == LeafSize(l) && LeafValid(l, x)
    ensures LeafFits(l, LeafDecode(l, x)) && LeafEncode(l, x, LeafDecode(l, x)) == x
  {
    hide Utf8, AlignUp, Splice, Store, Load, EncodeUnits, DecodeUnits;
    var o, n := DataOff(l.prefix, l.units), l.units.Span(Length(l, x));
    StoreLoad(l.prefix, x[..l.prefix.width]);
    EncodeDecodeUnits(l.units, x[o..o + n]);
    SpliceSelf(x, o, n);
    SpliceSelf(x, 0, l.prefix.width);
  }

  lemma CTextIdentity(l: LeafType, x: seq<Byte>)
    requires LeafWf(l) && l.CText? && |x| == LeafSize(l) && LeafValid(l, x)
    ensures LeafFits(l, LeafDecode(l, x)) && LeafEncode(l, x, LeafDecode(l, x)) == x
  {
    hide EncodeUnits, DecodeUnits, Splice;
    var k := FirstNul(Data(l, x));
    var n := l.units.Span(k + 1);
    assert x == x[..n] + x[n..];
    DecodeUnitsConcat(l.units, x[..n], x[n..]);
    assert Data(l, x)[..k] + [0] == DecodeUnits(l.units, x[..n]);
    EncodeDecodeUnits(l.units, x[..n]);
    SpliceSelf(x, 0, n);
  }

  /** A proved storage holds a value that fits, and writing that value back changes no byte. */
  lemma LeafIdentity(l: LeafType, x: seq<Byte>)
    requires LeafWf(l) && |x| == LeafSize(l) && LeafValid(l, x)
    ensures LeafFits(l, LeafDecode(l, x))
    ensures LeafEncode(l, x, LeafDecode(l, x)) == x
  {
    match l
    case Scalar(w) => StoreLoad(w, x);
    case Enum(w, _) => StoreLoad(w, x);
    case Text(_, _, _) => TextIdentity(l, x);
    case CText(_, _) => CTextIdentity(l, x);
    case _ =>
  }

  /** A commit writes the active bytes only: the tail and the prefix gap survive. */
  lemma LeafFrame(l: LeafType, x: seq<Byte>, v: LeafValue, i: nat)
    requires LeafWf(l) && |x| == LeafSize(l) && LeafFits(l, v) && i < |x|
    requires !LeafActive(l, v, i)
    ensures LeafEncode(l, x, v)[i] == x[i]
  {}

  /** The proof and the value depend on no byte past the active value. */
  lemma LeafLocal(l: LeafType, x: seq<Byte>, y: seq<Byte>)
    requires LeafWf(l) && |x| == |y| == LeafSize(l) && LeafValid(l, x)
    requires forall i :: 0 <= i < |x| && LeafActive(l, LeafDecode(l, x), i) ==> y[i] == x[i]
    ensures LeafValid(l, y) && LeafDecode(l, y) == LeafDecode(l, x)
  {
    hide Utf8, AlignUp, EncodeUnits, DecodeUnits, Splice, Store, Load, LeafWf;
    LeafIdentity(l, x);
    var v := LeafDecode(l, x);
    LeafRoundTrip(l, y, v);
    forall i | 0 <= i < |x| ensures LeafEncode(l, y, v)[i] == y[i] {
      if LeafActive(l, v, i) {
        assert LeafEncode(l, y, v)[i] == LeafEncode(l, x, v)[i] by { ActiveByte(l, x, y, v, i); }
      } else {
        LeafFrame(l, y, v, i);
      }
    }
    assert LeafEncode(l, y, v) == y;
  }

  /** An active byte is determined by the value alone. */
  lemma ActiveByte(l: LeafType, x: seq<Byte>, y: seq<Byte>, v: LeafValue, i: nat)
    requires LeafWf(l) && |x| == |y| == LeafSize(l) && LeafFits(l, v) && i < |x|
    requires LeafActive(l, v, i)
    ensures LeafEncode(l, x, v)[i] == LeafEncode(l, y, v)[i]
  {
    hide Utf8, AlignUp, EncodeUnits, Store;
    if l.Text? {
      var o, data := DataOff(l.prefix, l.units), EncodeUnits(l.units, v.us);
      assert o <= i < o + |data| ==>
          Splice(x, o, data)[i] == data[i - o] && Splice(y, o, data)[i] == data[i - o];
    }
  }

  /** Whether all-zero storage is a valid value of the leaf. */
  predicate LeafZeroValid(l: LeafType) { l.Enum? ==> 0 in l.discs }

  lemma LeafZero(l: LeafType, x: seq<Byte>)
    requires LeafWf(l) && |x| == LeafSize(l) && AllZero(x)
    ensures LeafValid(l, x) <==> LeafZeroValid(l)
  {
    match l
    case Enum(w, _) => LoadZero(w.order, x);
    case Text(prefix, _, _) => LoadZero(prefix.order, x[..prefix.width]);
    case CText(units, _) => LoadZero(units.AsWire().order, x[..units.Width()]);
    case _ =>
  }
}
