/** Flat positions of nested arrays (`src/array.rs`): row-major order, section 6.5.2.1 of
    ISO/IEC 9899:2011. Dimensions run from the outermost array to the innermost. */
module NestedArrays {
  import opened Bytes
  import opened Schemas
  import opened Codec
  import opened Layout

  lemma MulMono(a: nat, b: nat, p: nat)
    requires a <= b
    ensures a * p <= b * p
  {}

  lemma MulDist(a: nat, b: nat, p: nat)
    ensures (a + b) * p == a * p + b * p
  {}

  lemma MulAssoc(a: nat, b: nat, p: nat)
    ensures (a * b) * p == a * (b * p)
  {}

  function Product(dims: seq<nat>): nat {
    if dims == [] then 1 else dims[0] * Product(dims[1..])
  }

  /** Every index but the outermost is within its dimension. */
  predicate InRows(dims: seq<nat>, idx: seq<nat>) {
    |idx| == |dims| && forall k :: 1 <= k < |dims| ==> idx[k] < dims[k]
  }

  predicate InRange(dims: seq<nat>, idx: seq<nat>) {
    InRows(dims, idx) && (dims != [] ==> idx[0] < dims[0])
  }

  /** The row-major position of an index tuple. */
  function Flat(dims: seq<nat>, idx: seq<nat>): nat
    requires |idx| == |dims|
  {
    if dims == [] then 0 else idx[0] * Product(dims[1..]) + Flat(dims[1..], idx[1..])
  }

  lemma {:induction false} FlatBound(dims: seq<nat>, idx: seq<nat>)
    requires InRange(dims, idx)
    ensures Flat(dims, idx) < Product(dims)
  {
    if dims != [] {
      FlatBound(dims[1..], idx[1..]);
      var p := Product(dims[1..]);
      MulDist(idx[0], 1, p);
      MulMono(idx[0] + 1, dims[0], p);
    }
  }

  /** A position belongs to one index tuple only. */
  lemma {:induction false} FlatUnique(dims: seq<nat>, a: seq<nat>, b: seq<nat>)
    requires InRows(dims, a) && InRows(dims, b) && Flat(dims, a) == Flat(dims, b)
    ensures a == b
  {
    if dims != [] {
      var p := Product(dims[1..]);
      FlatBound(dims[1..], a[1..]);
      FlatBound(dims[1..], b[1..]);
      Digit(p, a[0], Flat(dims[1..], a[1..]), b[0], Flat(dims[1..], b[1..]));
      FlatUnique(dims[1..], a[1..], b[1..]);
      assert a == [a[0]] + a[1..] && b == [b[0]] + b[1..];
    }
  }

  lemma Digit(p: nat, x: nat, r: nat, y: nat, t: nat)
    requires x * p + r == y * p + t && r < p && t < p
    ensures x == y && r == t
  {
    var d: int := x - y;
    assert d * p == t - r;
    assert d >= 1 ==> d * p >= p;
    assert d <= -1 ==> d * p <= 0 - p;
  }

  /** The div/mod steps that generated error paths take, from the innermost dimension outwards. */
  method Unflatten(dims: seq<nat>, flat: nat) returns (idx: seq<nat>)
    requires dims != [] && forall k :: 0 <= k < |dims| ==> dims[k] > 0
    ensures InRows(dims, idx) && Flat(dims, idx) == flat
    ensures forall other :: InRows(dims, other) && Flat(dims, other) == flat ==> other == idx
    ensures flat < Product(dims) ==> InRange(dims, idx)
  {
    hide Product;
    var rest: nat, level: nat := flat, |dims|;
    idx := [];
    assert dims[|dims|..] == [] && Product([]) == 1 by { ProductUnit(); }
    while level > 1
      invariant 1 <= level <= |dims| && |idx| == |dims| - level
      invariant forall k :: 0 <= k < |idx| ==> idx[k] < dims[level + k]
      invariant flat == rest * Product(dims[level..]) + Flat(dims[level..], idx)
    {
      level := level - 1;
      ghost var d, tail, p := dims[level], idx, Product(dims[level + 1..]);
      idx := [rest % dims[level]] + idx;
      FlatStep(dims[level..], idx);
      assert dims[level..][1..] == dims[level + 1..] && idx[1..] == tail;
      Carry(rest, d, p);
      rest := rest / dims[level];
    }
    ghost var tail := idx;
    idx := [rest] + idx;
    assert idx[1..] == tail;
    FlatStep(dims, idx);
    forall other | InRows(dims, other) && Flat(dims, other) == flat ensures other == idx {
      FlatUnique(dims, other, idx);
    }
    if flat < Product(dims) { OuterBound(dims, idx); }
  }

  lemma ProductUnit()
    ensures Product([]) == 1
  {}

  lemma FlatStep(dims: seq<nat>, idx: seq<nat>)
    requires dims != [] && |idx| == |dims|
    ensures Product(dims) == dims[0] * Product(dims[1..])
    ensures Flat(dims, idx) == idx[0] * Product(dims[1..]) + Flat(dims[1..], idx[1..])
  {}

  lemma Carry(rest: nat, d: nat, p: nat)
    requires d > 0
    ensures rest * p == (rest / d) * (d * p) + (rest % d) * p
  {
    MulDist((rest / d) * d, rest % d, p);
    MulAssoc(rest / d, d, p);
  }

  lemma OuterBound(dims: seq<nat>, idx: seq<nat>)
    requires dims != [] && InRows(dims, idx) && Flat(dims, idx) < Product(dims)
    ensures idx[0] < dims[0]
  {
    var p := Product(dims[1..]);
    if idx[0] >= dims[0] { MulMono(dims[0], idx[0], p); }
  }

  // ----- saturating positions -----

  function SatMul(max: nat, a: nat, b: nat): nat { if a * b > max then max else a * b }
  function SatAdd(max: nat, a: nat, b: nat): nat { if a + b > max then max else a + b }

  /** `NestedArrayAdapter::position`, and `flat` of a row handle whose base is the row's. */
  function Position(max: nat, index: nat, n: nat, j: nat): nat { SatAdd(max, SatMul(max, index, n), j) }

  /** The position a chain of row handles computes, one level at a time. */
  function Chain(max: nat, index: nat, dims: seq<nat>, idx: seq<nat>): nat
    requires |idx| == |dims|
    decreases |dims|
  {
    if dims == [] then index else Chain(max, Position(max, index, dims[0], idx[0]), dims[1..], idx[1..])
  }

  /** No step saturates while the leaves are fewer than `usize` can count, and the chain ends at the
      row-major position. */
  lemma {:induction false} ChainIsFlat(max: nat, index: nat, dims: seq<nat>, idx: seq<nat>)
    requires InRange(dims, idx) && (index + 1) * Product(dims) <= max
    requires forall k :: 0 <= k < |dims| ==> dims[k] > 0
    ensures Chain(max, index, dims, idx) == index * Product(dims) + Flat(dims, idx)
    decreases |dims|
  {
    if dims != [] {
      var n, p, j := dims[0], Product(dims[1..]), idx[0];
      RowFits(max, index, n, p, j);
      ProductPositive(dims[1..]);
      ChainIsFlat(max, index * n + j, dims[1..], idx[1..]);
    }
  }

  lemma {:induction false} ProductPositive(dims: seq<nat>)
    requires forall k :: 0 <= k < |dims| ==> dims[k] > 0
    ensures Product(dims) > 0
  {
    if dims != [] { ProductPositive(dims[1..]); }
  }

  lemma RowFits(max: nat, index: nat, n: nat, p: nat, j: nat)
    requires j < n && (index + 1) * (n * p) <= max
    ensures (index * n + j + 1) * p <= max
    ensures (index * n + j) * p == index * (n * p) + j * p
    ensures p > 0 ==> Position(max, index, n, j) == index * n + j
  {
    MulDist(index, 1, n);
    MulAssoc(index + 1, n, p);
    MulMono(index * n + j + 1, index * n + n, p);
    MulDist(index * n, j, p);
    MulAssoc(index, n, p);
    if p > 0 { MulMono(1, p, index * n + j + 1); }
  }

  // ----- nested arrays of a schema -----

  function Dims(s: Schema): seq<nat> {
    if s.Array? && s.cell.Own? then [s.len] + Dims(s.cell.s) else []
  }

  /** The element type under every array level. */
  function Core(s: Schema): Schema {
    if s.Array? && s.cell.Own? then Core(s.cell.s) else s
  }

  /** A nested array is its leaves, one after the other. */
  lemma {:induction false} NestedSize(s: Schema)
    requires Wf(s)
    ensures Wf(Core(s)) && s.Size() == Product(Dims(s)) * Core(s).Size()
    ensures forall k :: 0 <= k < |Dims(s)| ==> Dims(s)[k] > 0
  {
    if s.Array? {
      NestedSize(s.cell.s);
      assert Dims(s)[1..] == Dims(s.cell.s);
      MulAssoc(s.len, Product(Dims(s.cell.s)), Core(s).Size());
    }
  }

  /** The leaf at flat position `p` lies at `p` times the leaf size. */
  function Element(s: Schema, b: seq<Byte>, p: nat): (x: seq<Byte>)
    requires Wf(s) && |b| == s.Size() && p < Product(Dims(s))
    ensures |x| == Core(s).Size()
  {
    b[Start(s, p)..Start(s, p) + Core(s).Size()]
  }

  function Start(s: Schema, p: nat): (o: nat)
    requires Wf(s) && p < Product(Dims(s))
    ensures o == p * Core(s).Size() && o + Core(s).Size() <= s.Size()
  {
    NestedSize(s);
    RowArith(0, 1, Product(Dims(s)), p, Core(s).Size());
    p * Core(s).Size()
  }

  /** The byte offset reached by selecting one row after another. */
  function Offset(s: Schema, idx: seq<nat>): nat
    requires |idx| == |Dims(s)|
  {
    if s.Array? && s.cell.Own? then idx[0] * s.stride + Offset(s.cell.s, idx[1..]) else 0
  }

  /** Row by row or by flat position, the same bytes are selected. */
  lemma {:induction false} OffsetIsFlat(s: Schema, idx: seq<nat>)
    requires Wf(s) && |idx| == |Dims(s)|
    ensures Offset(s, idx) == Flat(Dims(s), idx) * Core(s).Size()
  {
    if s.Array? {
      var d, n := Dims(s.cell.s), Core(s).Size();
      OffsetIsFlat(s.cell.s, idx[1..]);
      NestedSize(s.cell.s);
      assert Dims(s)[1..] == d;
      MulDist(idx[0] * Product(d), Flat(d, idx[1..]), n);
      MulAssoc(idx[0], Product(d), n);
    }
  }

  /** Leaf `q` of row `j` is leaf `j * rows + q` of the whole. */
  lemma RowElement(s: Schema, b: seq<Byte>, j: nat, q: nat)
    requires Wf(s) && s.Array? && |b| == s.Size() && j < s.len && q < Product(Dims(s.cell.s))
    ensures s.Framed() && Wf(s.cell.s) && s.stride == s.cell.s.Size() && Core(s) == Core(s.cell.s)
    ensures j * Product(Dims(s.cell.s)) + q < Product(Dims(s)) == s.len * Product(Dims(s.cell.s))
    ensures Element(s.cell.s, Part(s, b, j), q) == Element(s, b, j * Product(Dims(s.cell.s)) + q)
  {
    hide Wf, Product, Core, Start;
    RowShape(s);
    RowStart(s, j, q);
    assert s.Off(j) + s.stride <= s.Size();
    Slices(b, s.Off(j), s.stride, Start(s.cell.s, q), Core(s).Size());
  }

  lemma RowStart(s: Schema, j: nat, q: nat)
    requires Wf(s) && s.Array? && j < s.len && q < Product(Dims(s.cell.s))
    ensures s.cell.Own? && Wf(s.cell.s) && j * Product(Dims(s.cell.s)) + q < Product(Dims(s))
    ensures Start(s, j * Product(Dims(s.cell.s)) + q) == s.Off(j) + Start(s.cell.s, q)
  {
    hide Wf, Product, Core, Dims;
    RowShape(s);
    NestedSize(s.cell.s);
    RowArith(j, s.len, Product(Dims(s.cell.s)), q, Core(s).Size());
  }

  lemma RowArith(j: nat, len: nat, p: nat, q: nat, n: nat)
    requires j < len && q < p
    ensures j * p + q < len * p
    ensures (j * p + q) * n == j * (p * n) + q * n
    ensures q * n + n <= p * n
  {
    MulDist(j, 1, p);
    MulMono(j + 1, len, p);
    MulDist(j * p, q, n);
    MulAssoc(j, p, n);
    MulDist(q, 1, n);
    MulMono(q + 1, p, n);
  }

  lemma RowShape(s: Schema)
    requires Wf(s) && s.Array?
    ensures s.Framed() && s.cell.Own? && Wf(s.cell.s) && s.len > 0 && s.stride == s.cell.s.Size() &&
      Core(s) == Core(s.cell.s)
    ensures Product(Dims(s)) == s.len * Product(Dims(s.cell.s))
  {
    assert Dims(s)[1..] == Dims(s.cell.s);
  }

  /** The positions from `lo` up to but excluding `hi`, in increasing order without a gap. */
  predicate Consecutive(visited: seq<nat>, lo: nat, hi: nat) {
    lo + |visited| == hi && forall i :: 0 <= i < |visited| ==> visited[i] == lo + i
  }

  /** Every leaf below `p` is valid. */
  ghost predicate GoodBelow(s: Schema, b: seq<Byte>, p: nat)
    requires Wf(s) && |b| == s.Size() && p <= Product(Dims(s))
  {
    Wf(Core(s)) && forall q :: 0 <= q < p ==> Valid(Core(s), Element(s, b, q))
  }

  /** Leaf `p` is the first that is not valid. */
  ghost predicate FirstBad(s: Schema, b: seq<Byte>, p: nat)
    requires Wf(s) && |b| == s.Size()
  {
    p < Product(Dims(s)) && GoodBelow(s, b, p) && !Valid(Core(s), Element(s, b, p))
  }

  /** One more row is proved, up to its leaf `r`; the row starts at leaf `off`. */
  lemma RowGood(s: Schema, b: seq<Byte>, j: nat, off: nat, r: nat)
    requires Wf(s) && s.Array? && |b| == s.Size() && j < s.len
    requires s.cell.Own? && Wf(s.cell.s) && s.stride == s.cell.s.Size() && s.Framed() && r <= Product(Dims(s.cell.s))
    requires off == j * Product(Dims(s.cell.s)) && off + r <= Product(Dims(s))
    requires GoodBelow(s, b, off) && GoodBelow(s.cell.s, Part(s, b, j), r)
    ensures GoodBelow(s, b, off + r)
    ensures r < Product(Dims(s.cell.s)) ==>
      off + r < Product(Dims(s)) && Element(s.cell.s, Part(s, b, j), r) == Element(s, b, off + r)
  {
    hide Wf, Product, Dims, Core, Element, Valid, Part;
    RowShape(s);
    forall q | 0 <= q < off + r ensures Valid(Core(s), Element(s, b, q)) {
      if q >= off { RowElement(s, b, j, q - off); }
    }
    if r < Product(Dims(s.cell.s)) { RowElement(s, b, j, r); }
  }

  lemma ArrayValid(s: Schema, b: seq<Byte>)
    requires Wf(s) && s.Array? && |b| == s.Size()
    ensures s.cell.Own? && Wf(s.cell.s) && s.stride == s.cell.s.Size() && s.Framed()
    ensures Valid(s, b) <==> forall k :: 0 <= k < s.len ==> Valid(s.cell.s, Part(s, b, k))
  {
    RowShape(s);
    forall k | 0 <= k < s.len ensures ValidKid(s, b, k) <==> Valid(s.cell.s, Part(s, b, k)) {
      assert Part(s, b, k)[..s.stride] == Part(s, b, k);
    }
  }

  lemma LeafCore(s: Schema, b: seq<Byte>)
    requires Wf(s) && !s.Array? && |b| == s.Size()
    ensures Core(s) == s && Product(Dims(s)) == 1 && Element(s, b, 0) == b
  {
    ProductUnit();
    assert Start(s, 0) == 0;
  }

  /** Where row `j` of the array at flat position `index` begins, and the position its adapter gets. */
  lemma RowPosition(max: nat, s: Schema, index: nat, base: nat, j: nat, off: nat)
    requires Wf(s) && s.Array? && j < s.len && s.cell.Own?
    requires base == index * Product(Dims(s)) && base + Product(Dims(s)) <= max && off == j * Product(Dims(s.cell.s))
    ensures Position(max, index, s.len, j) * Product(Dims(s.cell.s)) == base + off
    ensures off + Product(Dims(s.cell.s)) == (j + 1) * Product(Dims(s.cell.s))
    ensures off + Product(Dims(s.cell.s)) <= Product(Dims(s))
  {
    hide Wf, Product, Dims;
    RowShape(s);
    NestedSize(s.cell.s);
    ProductPositive(Dims(s.cell.s));
    MulDist(index, 1, Product(Dims(s)));
    RowFits(max, index, s.len, Product(Dims(s.cell.s)), j);
    MulDist(j, 1, Product(Dims(s.cell.s)));
    MulMono(j + 1, s.len, Product(Dims(s.cell.s)));
  }

  /** The nested proof of an array, or of a row at flat position `index`, whose leaves begin at flat
      position `base`. Leaves are visited in increasing flat order without a gap; the proof succeeds
      exactly when every leaf is valid, and otherwise stops at the least invalid position and reports
      it. */
  method ProveNested(max: nat, s: Schema, b: seq<Byte>, index: nat, ghost base: nat)
    returns (ok: bool, at: nat, ghost visited: seq<nat>)
    requires Wf(s) && |b| == s.Size() && base == index * Product(Dims(s)) && base + Product(Dims(s)) <= max
    ensures ok == Valid(s, b)
    ensures ok ==> GoodBelow(s, b, Product(Dims(s))) && Consecutive(visited, base, base + Product(Dims(s)))
    ensures !ok ==> base <= at && FirstBad(s, b, at - base) && Consecutive(visited, base, at + 1)
    decreases s
  {
    hide Wf, Product, Dims, Core, Element, Valid, Part, Position;
    ok, at, visited := true, index, [];
    if !s.Array? {
      LeafCore(s, b);
      ok, visited := Valid(s, b), [index];
      return;
    }
    ArrayValid(s, b);
    RowShape(s);
    NestedSize(s);
    ghost var off: nat := 0;
    for j := 0 to s.len
      invariant off == j * Product(Dims(s.cell.s)) && off <= Product(Dims(s)) && GoodBelow(s, b, off)
      invariant Consecutive(visited, base, base + off)
      invariant ok && forall i :: 0 <= i < j ==> Valid(s.cell.s, Part(s, b, i))
    {
      RowPosition(max, s, index, base, j, off);
      ghost var row;
      ok, at, row := ProveNested(max, s.cell.s, Part(s, b, j), Position(max, index, s.len, j), base + off);
      visited := visited + row;
      RowGood(s, b, j, off, if ok then Product(Dims(s.cell.s)) else at - base - off);
      if !ok { return; }
      off := off + Product(Dims(s.cell.s));
    }
  }

  /** The leaves of a placed array that fits memory are fewer than `usize` can count, so the positions
      of its proof, its row handles and its error paths are exact. */
  lemma {:induction false} LeavesCounted(s: Schema)
    requires Declared(s)
    ensures Wf(Place(s)) && Core(Place(s)).Size() > 0 && Product(Dims(Place(s))) <= Place(s).Size()
  {
    hide Wf, Declared, Place, Product, Dims, Core;
    PlaceWf(s);
    NestedSize(Place(s));
    CorePositive(s);
    AtLeast(Product(Dims(Place(s))), Core(Place(s)).Size());
  }

  lemma AtLeast(p: nat, n: nat)
    requires n > 0
    ensures p <= p * n
  {}

  lemma {:induction false} CorePositive(s: Schema)
    requires Declared(s)
    ensures Core(Place(s)).Size() > 0
  {
    if s.Array? {
      CorePositive(s.cell.s);
      assert Place(s).cell == Own(Place(s.cell.s));
    } else {
      PlacePositive(s);
    }
  }

  /** A row handle chain over a placed array, the walk of its proof and the error path agree. */
  lemma ExactPositions(max: nat, s: Schema, idx: seq<nat>)
    requires Declared(s) && Place(s).Size() <= max && InRange(Dims(Place(s)), idx)
    ensures Wf(Place(s)) && Chain(max, 0, Dims(Place(s)), idx) == Flat(Dims(Place(s)), idx) < Product(Dims(Place(s)))
    ensures Offset(Place(s), idx) == Start(Place(s), Chain(max, 0, Dims(Place(s)), idx))
  {
    hide Wf, Declared, Place, Product;
    LeavesCounted(s);
    NestedSize(Place(s));
    ChainIsFlat(max, 0, Dims(Place(s)), idx);
    FlatBound(Dims(Place(s)), idx);
    OffsetIsFlat(Place(s), idx);
  }

  // ----- the index path of the first failure -----

  /** Lexicographic order of index tuples. */
  predicate LexLess(a: seq<nat>, b: seq<nat>)
    requires |a| == |b|
  {
    a != [] && (a[0] < b[0] || (a[0] == b[0] && LexLess(a[1..], b[1..])))
  }

  /** Row-major positions are in lexicographic order. */
  lemma {:induction false} FlatMonotone(dims: seq<nat>, a: seq<nat>, b: seq<nat>)
    requires InRange(dims, a) && InRange(dims, b)
    ensures LexLess(a, b) <==> Flat(dims, a) < Flat(dims, b)
  {
    if dims != [] {
      var p := Product(dims[1..]);
      FlatBound(dims[1..], a[1..]);
      FlatBound(dims[1..], b[1..]);
      FlatMonotone(dims[1..], a[1..], b[1..]);
      if a[0] < b[0] { RowBefore(p, a[0], Flat(dims[1..], a[1..]), b[0]); }
      if b[0] < a[0] { RowBefore(p, b[0], Flat(dims[1..], b[1..]), a[0]); }
    }
  }

  lemma RowBefore(p: nat, x: nat, r: nat, y: nat)
    requires x < y && r < p
    ensures x * p + r < y * p
  {
    MulDist(x, 1, p);
    MulMono(x + 1, y, p);
  }

  /** The leaf reached by selecting one row after another. */
  function LeafAt(s: Schema, b: seq<Byte>, idx: seq<nat>): (x: seq<Byte>)
    requires Wf(s) && |b| == s.Size() && InRange(Dims(s), idx)
    ensures |x| == Core(s).Size()
  {
    PositionOf(s, b, idx);
    b[Offset(s, idx)..Offset(s, idx) + Core(s).Size()]
  }

  lemma PositionOf(s: Schema, b: seq<Byte>, idx: seq<nat>)
    requires Wf(s) && |b| == s.Size() && InRange(Dims(s), idx)
    ensures Flat(Dims(s), idx) < Product(Dims(s)) && Offset(s, idx) + Core(s).Size() <= |b|
    ensures Element(s, b, Flat(Dims(s), idx)) == b[Offset(s, idx)..Offset(s, idx) + Core(s).Size()]
  {
    hide Wf, Product, Flat, Offset;
    FlatBound(Dims(s), idx);
    OffsetIsFlat(s, idx);
    assert Start(s, Flat(Dims(s), idx)) == Offset(s, idx);
  }

  /** The proof of a whole array and the index path of its error: the lexicographically first index tuple
      whose leaf, reached row by row, is invalid. */
  method ProveArray(max: nat, s: Schema, b: seq<Byte>) returns (ok: bool, idx: seq<nat>)
    requires Wf(s) && s.Array? && |b| == s.Size() && Product(Dims(s)) <= max
    ensures Wf(Core(s)) && ok == Valid(s, b)
    ensures !ok ==> InRange(Dims(s), idx) && !Valid(Core(s), LeafAt(s, b, idx))
    ensures !ok ==> forall other :: InRange(Dims(s), other) && LexLess(other, idx) ==>
      Valid(Core(s), LeafAt(s, b, other))
  {
    hide Wf, Product, Core, Element, Valid, LeafAt, Flat, LexLess;
    NestedSize(s);
    RowShape(s);
    idx := [];
    var at;
    ghost var visited;
    ok, at, visited := ProveNested(max, s, b, 0, 0);
    if !ok {
      idx := Unflatten(Dims(s), at);
      LeafIsElement(s, b, idx);
      forall other | InRange(Dims(s), other) && LexLess(other, idx) ensures Valid(Core(s), LeafAt(s, b, other)) {
        FlatMonotone(Dims(s), other, idx);
        LeafIsElement(s, b, other);
      }
    }
  }

  lemma LeafIsElement(s: Schema, b: seq<Byte>, idx: seq<nat>)
    requires Wf(s) && |b| == s.Size() && InRange(Dims(s), idx)
    ensures Flat(Dims(s), idx) < Product(Dims(s)) && LeafAt(s, b, idx) == Element(s, b, Flat(Dims(s), idx))
  {
    hide Wf;
    PositionOf(s, b, idx);
  }
}
