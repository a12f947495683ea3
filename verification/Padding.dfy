/** The padding ranges the emitter computes for a record's layout description. */
module Padding {
  import opened Leaves
  import opened Schemas
  import opened Layout

  datatype Range = Range(lo: nat, hi: nat)

  /** Byte `i` belongs to the value wire of one of the fields. */
  predicate InValue(fields: seq<Field>, i: nat) {
    exists k :: 0 <= k < |fields| && fields[k].off <= i < fields[k].off + SizeOfKind(fields[k].kind)
  }

  predicate InRanges(ranges: seq<Range>, i: nat) {
    exists k :: 0 <= k < |ranges| && ranges[k].lo <= i < ranges[k].hi
  }

  /** The ranges are in order, do not overlap and end at `end` or before. */
  predicate Ordered(ranges: seq<Range>, end: nat) {
    && (forall k :: 0 <= k < |ranges| ==> ranges[k].lo <= ranges[k].hi <= end)
    && (forall j, k :: 0 <= j < k < |ranges| ==> ranges[j].hi <= ranges[k].lo)
  }

  function RangeBytes(ranges: seq<Range>): int {
    if ranges == [] then 0
    else RangeBytes(ranges[..|ranges| - 1]) + ranges[|ranges| - 1].hi - ranges[|ranges| - 1].lo
  }

  function ValueBytes(fields: seq<Field>): nat {
    if fields == [] then 0 else ValueBytes(fields[..|fields| - 1]) + SizeOfKind(fields[|fields| - 1].kind)
  }

  /** Bytes `[0, end)` are shared out between the fields' values and the ranges, each exactly once. */
  ghost predicate Covers(fields: seq<Field>, ranges: seq<Range>, end: nat) {
    && Ordered(ranges, end)
    && (forall i :: 0 <= i < end ==> (InRanges(ranges, i) <==> !InValue(fields, i)))
    && RangeBytes(ranges) + ValueBytes(fields) == end
  }

  lemma CoverNothing()
    ensures Covers([], [], 0)
  {}

  /** One more range of padding. */
  lemma CoverPadding(fields: seq<Field>, ranges: seq<Range>, end: nat, hi: nat)
    requires Covers(fields, ranges, end) && end <= hi
    requires forall k :: 0 <= k < |fields| ==> fields[k].off + SizeOfKind(fields[k].kind) <= end
    ensures Covers(fields, ranges + [Range(end, hi)], hi)
  {
    hide SizeOfKind;
    var all := ranges + [Range(end, hi)];
    assert all[..|ranges|] == ranges;
    forall i | 0 <= i < hi ensures InRanges(all, i) <==> !InValue(fields, i) {
      if i < end {
        if InRanges(ranges, i) {
          var k :| 0 <= k < |ranges| && ranges[k].lo <= i < ranges[k].hi;
          assert all[k] == ranges[k];
        }
      } else {
        assert all[|ranges|].lo <= i < all[|ranges|].hi;
      }
    }
  }

  /** One more field. */
  lemma CoverValue(fields: seq<Field>, ranges: seq<Range>, end: nat, f: Field)
    requires Covers(fields, ranges, end) && f.off == end
    ensures Covers(fields + [f], ranges, end + SizeOfKind(f.kind))
  {
    hide SizeOfKind;
    var all := fields + [f];
    assert all[..|fields|] == fields;
    forall i | 0 <= i < end + SizeOfKind(f.kind) ensures InRanges(ranges, i) <==> !InValue(all, i) {
      if i < end {
        if InValue(fields, i) {
          var k :| 0 <= k < |fields| && fields[k].off <= i < fields[k].off + SizeOfKind(fields[k].kind);
          assert all[k] == fields[k];
        }
      } else {
        assert all[|fields|] == f;
        assert InValue(all, i);
      }
    }
  }

  /** `struct_padding_ranges`. The gap before each field, the local padding around an aligned field's
      value, and the tail: with the values they make up the record exactly. */
  method PaddingRanges(s: Schema) returns (ranges: seq<Range>)
    requires s.Record? && Wf(s) && Aligned(s)
    ensures Covers(s.fields, ranges, s.size)
  {
    hide SizeOfKind, Wf, Aligned, AlignedField, Covers, AlignUp;
    var previousEnd: nat := 0;
    ranges := [];
    CoverNothing();
    assert s.fields[..0] == [];
    for k := 0 to |s.fields|
      invariant Covers(s.fields[..k], ranges, previousEnd)
      invariant previousEnd == EndOf(s.fields[..k])
      invariant forall j :: 0 <= j < k ==> s.fields[j].off + SizeOfKind(s.fields[j].kind) <= previousEnd
    {
      var f := s.fields[k];
      FieldRoom(s, k);
      CoverPadding(s.fields[..k], ranges, previousEnd, f.off);
      ranges := ranges + [Range(previousEnd, f.off)];
      if f.align != 0 {
        CoverPadding(s.fields[..k], ranges, f.off, f.off);
        ranges := ranges + [Range(f.off, f.off)];
      }
      CoverValue(s.fields[..k], ranges, f.off, f);
      assert s.fields[..k + 1] == s.fields[..k] + [f];
      if f.align != 0 {
        CoverPadding(s.fields[..k + 1], ranges, f.off + SizeOfKind(f.kind), f.off + f.len);
        ranges := ranges + [Range(f.off + SizeOfKind(f.kind), f.off + f.len)];
      }
      previousEnd := f.off + f.len;
    }
    assert s.fields[..|s.fields|] == s.fields;
    RecordRoom(s);
    CoverPadding(s.fields, ranges, previousEnd, s.size);
    ranges := ranges + [Range(previousEnd, s.size)];
  }

  lemma FieldRoom(s: Schema, k: nat)
    requires s.Record? && Wf(s) && Aligned(s) && k < |s.fields|
    ensures var f := s.fields[k];
      EndOf(s.fields[..k]) <= f.off && SizeOfKind(f.kind) <= f.len && (f.align == 0 ==> f.len == SizeOfKind(f.kind))
  {
    hide AlignUp;
    assert AlignedField(s.fields[k], AlignOf(s));
    if k > 0 { assert s.Off(k - 1) + s.Len(k - 1) <= s.Off(k); }
  }

  lemma RecordRoom(s: Schema)
    requires s.Record? && Wf(s)
    ensures EndOf(s.fields) <= s.size
  {
    if s.fields != [] { assert s.Off(|s.fields| - 1) + s.Len(|s.fields| - 1) <= s.Size(); }
  }
}
