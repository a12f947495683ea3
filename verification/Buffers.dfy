/** The exclusive byte buffer that every mutable capability writes, with a ghost record of its
    stores, and the leaf stores of `src/wire.rs` and `src/strings.rs`. */
module Buffers {
  import opened Bytes
  import opened Leaves

  /** One byte stored. */
  datatype Write = Write(at: nat, value: Byte)

  /** The contents after a sequence of stores. */
  function Replay(b: seq<Byte>, log: seq<Write>): (r: seq<Byte>)
    ensures |r| == |b|
  {
    if log == [] then b
    else
      var r, w := Replay(b, log[..|log| - 1]), log[|log| - 1];
      if w.at < |b| then r[w.at := w.value] else r
  }

  /** Every store from index `from` on lies in `[lo, hi)`. */
  predicate Inside(log: seq<Write>, from: nat, lo: nat, hi: nat) {
    forall i :: from <= i < |log| ==> lo <= log[i].at < hi
  }

  /** Stores outside a range leave the range alone. */
  lemma {:induction false} ReplayAside(b: seq<Byte>, log: seq<Write>, from: nat, lo: nat, hi: nat)
    requires from <= |log| && lo <= hi <= |b|
    requires forall i :: from <= i < |log| ==> log[i].at < lo || hi <= log[i].at
    ensures Replay(b, log)[lo..hi] == Replay(b, log[..from])[lo..hi]
    decreases |log|
  {
    if from < |log| {
      var front := log[..|log| - 1];
      assert front[..from] == log[..from];
      ReplayAside(b, front, from, lo, hi);
    } else {
      assert log[..from] == log;
    }
  }

  class Buffer {
    const cells: array<Byte>
    /** The contents when the buffer was wrapped, and every byte stored since. */
    ghost const start: seq<Byte>
    ghost var log: seq<Write>

    ghost predicate Valid()
      reads this, cells
    {
      |start| == cells.Length && cells[..] == Replay(start, log)
    }

    constructor (bytes: array<Byte>)
      ensures Valid() && cells == bytes && log == [] && start == bytes[..]
    {
      cells := bytes;
      start := bytes[..];
      log := [];
    }

    /** `copy_from_slice` into a selected range. */
    method Put(at: nat, data: seq<Byte>)
      requires Valid() && at + |data| <= cells.Length
      modifies this, cells
      ensures Valid() && cells[..] == Splice(old(cells[..]), at, data)
      ensures old(log) <= log && Inside(log, |old(log)|, at, at + |data|)
    {
      SpliceSelf(cells[..], at, 0);
      for i := 0 to |data|
        invariant Valid() && cells[..] == Splice(old(cells[..]), at, data[..i])
        invariant old(log) <= log && Inside(log, |old(log)|, at, at + i)
      {
        ghost var before := log;
        cells[at + i] := data[i];
        log := log + [Write(at + i, data[i])];
        assert log[..|log| - 1] == before;
        assert cells[..] == Splice(old(cells[..]), at, data[..i])[at + i := data[i]];
        assert cells[..] == Splice(old(cells[..]), at, data[..i + 1]);
      }
      assert data[..|data|] == data;
    }

    /** `clear_all` over an exact range. */
    method Clear(at: nat, n: nat)
      requires Valid() && at + n <= cells.Length
      modifies this, cells
      ensures Valid() && cells[..] == Splice(old(cells[..]), at, Zeros(n))
      ensures old(log) <= log && Inside(log, |old(log)|, at, at + n)
    {
      Put(at, Zeros(n));
    }
  }

  lemma {:induction false} EncodeUnitsSnoc(u: Units, us: seq<nat>, n: nat)
    ensures EncodeUnits(u, us + [n]) == EncodeUnits(u, us) + Store(u.AsWire(), n)
  {
    if us == [] {
      assert us + [n] == [n];
    } else {
      EncodeUnitsSnoc(u, us[1..], n);
      assert (us + [n])[1..] == us[1..] + [n];
    }
  }

  lemma SpliceSnoc(b: seq<Byte>, at: nat, x: seq<Byte>, y: seq<Byte>)
    requires at + |x| + |y| <= |b|
    ensures Splice(Splice(b, at, x), at + |x|, y) == Splice(b, at, x + y)
  {}

  /** `store_native_u16s` for wide units, one slice copy for narrow ones. */
  method StoreUnits(m: Buffer, at: nat, u: Units, us: seq<nat>)
    requires m.Valid() && at + u.Span(|us|) <= m.cells.Length
    modifies m, m.cells
    ensures m.Valid() && m.cells[..] == Splice(old(m.cells[..]), at, EncodeUnits(u, us))
    ensures old(m.log) <= m.log && Inside(m.log, |old(m.log)|, at, at + u.Span(|us|))
  {
    if u.Narrow? {
      m.Put(at, EncodeUnits(u, us));
    } else {
      StoreWide(m, at, u, us);
    }
  }

  method StoreWide(m: Buffer, at: nat, u: Units, us: seq<nat>)
    requires u.Wide? && m.Valid() && at + u.Span(|us|) <= m.cells.Length
    modifies m, m.cells
    ensures m.Valid() && m.cells[..] == Splice(old(m.cells[..]), at, EncodeUnits(u, us))
    ensures old(m.log) <= m.log && Inside(m.log, |old(m.log)|, at, at + u.Span(|us|))
  {
    hide Replay, Store, Splice, EncodeUnits;
    assert us[..0] == [] && EncodeUnits(u, []) == [];
    SpliceSelf(m.cells[..], at, 0);
    for j := 0 to |us|
      invariant m.Valid() && m.cells[..] == Splice(old(m.cells[..]), at, EncodeUnits(u, us[..j]))
      invariant old(m.log) <= m.log && Inside(m.log, |old(m.log)|, at, at + u.Span(j))
    {
      m.Put(at + u.Span(j), Store(u.AsWire(), us[j]));
      EncodeUnitsSnoc(u, us[..j], us[j]);
      assert us[..j + 1] == us[..j] + [us[j]];
      SpliceSnoc(old(m.cells[..]), at, EncodeUnits(u, us[..j]), Store(u.AsWire(), us[j]));
    }
    assert us[..|us|] == us;
  }

  /** A leaf commit: for a prefixed string the active units first, then the length. */
  method CommitLeaf(m: Buffer, at: nat, l: LeafType, v: LeafValue)
    requires LeafWf(l) && LeafFits(l, v) && m.Valid() && at + LeafSize(l) <= m.cells.Length
    modifies m, m.cells
    ensures m.Valid()
    ensures m.cells[..] == Splice(old(m.cells[..]), at, LeafEncode(l, old(m.cells[at..at + LeafSize(l)]), v))
    ensures old(m.log) <= m.log && Inside(m.log, |old(m.log)|, at, at + LeafSize(l))
  {
    hide Replay, Plain, Splice, Utf8, AlignUp, EncodeUnits;
    if l.Text? {
      CommitText(m, at, l, v);
    } else if l.CText? {
      ghost var c0 := m.cells[..];
      StoreUnits(m, at, l.units, v.us + [0]);
      SpliceInto(c0, at, LeafSize(l), 0, EncodeUnits(l.units, v.us + [0]));
    } else {
      m.Put(at, Plain(l, v));
    }
  }

  /** Of the stores from `from` on, those before `split` lie in `[lo, hi)` and the others in `[plo, phi)`. */
  predicate SplitAt(log: seq<Write>, from: nat, split: nat, lo: nat, hi: nat, plo: nat, phi: nat) {
    && from <= split <= |log| && Inside(log, split, plo, phi)
    && forall i :: from <= i < split ==> lo <= log[i].at < hi
  }

  /** The stores from `from` on go to `[lo, hi)` first and to `[plo, phi)` after. */
  ghost predicate InOrder(log: seq<Write>, from: nat, lo: nat, hi: nat, plo: nat, phi: nat) {
    exists split :: SplitAt(log, from, split, lo, hi, plo, phi)
  }

  method CommitText(m: Buffer, at: nat, l: LeafType, v: LeafValue)
    requires l.Text? && LeafWf(l) && LeafFits(l, v) && m.Valid() && at + LeafSize(l) <= m.cells.Length
    modifies m, m.cells
    ensures m.Valid()
    ensures m.cells[..] == Splice(old(m.cells[..]), at, LeafEncode(l, old(m.cells[at..at + LeafSize(l)]), v))
    ensures old(m.log) <= m.log && Inside(m.log, |old(m.log)|, at, at + LeafSize(l))
    ensures var o := at + DataOff(l.prefix, l.units);
      InOrder(m.log, |old(m.log)|, o, o + l.units.Span(|v.us|), at, at + l.prefix.width)
  {
    hide Replay, Store, Splice, Utf8, AlignUp, EncodeUnits, DataOff;
    ghost var c0 := m.cells[..];
    var o := DataOff(l.prefix, l.units);
    StoreUnits(m, at + o, l.units, v.us);
    ghost var split := |m.log|;
    m.Put(at, Store(l.prefix, |v.us|));
    assert SplitAt(m.log, |old(m.log)|, split, at + o, at + o + l.units.Span(|v.us|), at, at + l.prefix.width);
    TextSplices(l, c0, at, v);
  }

  lemma TextSplices(l: LeafType, c: seq<Byte>, at: nat, v: LeafValue)
    requires l.Text? && LeafWf(l) && LeafFits(l, v) && at + LeafSize(l) <= |c|
    ensures var o, data := DataOff(l.prefix, l.units), EncodeUnits(l.units, v.us);
      && o + |data| <= LeafSize(l)
      && Splice(Splice(c, at + o, data), at, Store(l.prefix, |v.us|)) ==
        Splice(c, at, LeafEncode(l, c[at..at + LeafSize(l)], v))
  {
    hide Store, Splice, Utf8, AlignUp, EncodeUnits, DataOff;
    var o, data, n := DataOff(l.prefix, l.units), EncodeUnits(l.units, v.us), LeafSize(l);
    SpliceInto(c, at, n, o, data);
    SpliceWindow(c, at, Splice(c[at..at + n], o, data), 0, Store(l.prefix, |v.us|));
  }

  lemma SpliceInto(c: seq<Byte>, at: nat, n: nat, o: nat, y: seq<Byte>)
    requires at + n <= |c| && o + |y| <= n
    ensures Splice(c, at + o, y) == Splice(c, at, Splice(c[at..at + n], o, y))
  {
    SpliceSelf(c, at, n);
    SpliceWindow(c, at, c[at..at + n], o, y);
  }

  /** A splice inside a window of the buffer is a splice of the window. */
  lemma SpliceWindow(c: seq<Byte>, at: nat, b: seq<Byte>, o: nat, y: seq<Byte>)
    requires at + |b| <= |c| && o + |y| <= |b|
    ensures Splice(Splice(c, at, b), at + o, y) == Splice(c, at, Splice(b, o, y))
  {}
}
