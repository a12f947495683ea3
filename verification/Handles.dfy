/** The mutable capabilities of `src/mutation.rs`, `src/array.rs`, `src/tagged.rs` and of the
    generated records: each is a handle on one proved span of the shared buffer. A handle holds no
    copy of the contents, so its state is the buffer's. Every method is held to the operations of
    module `Runs`. */
module Handles {
  import opened Bytes
  import opened Leaves
  import opened Schemas
  import opened Codec
  import opened ZeroStates
  import opened RoundTrip
  import opened Patches
  import opened PatchLaws
  import opened Frames
  import opened Buffers
  import opened Traces
  import opened Commits
  import opened PatchCommits
  import opened CopyLaws
  import opened Runs

  /** The invariant of every handle: the span it selects was proved and still is. */
  ghost predicate Proved(m: Buffer, at: nat, s: Schema)
    reads m, m.cells
  {
    m.Valid() && Wf(s) && at + s.Size() <= m.cells.Length && Valid(s, Span(m, at, s.Size()))
  }

  /** The same for a field storage of `n` bytes, under the tag `d`. */
  ghost predicate ProvedKind(m: Buffer, at: nat, n: nat, kind: Kind, d: nat)
    reads m, m.cells
  {
    m.Valid() && WfKind(kind) && Room(kind, n) && at + n <= m.cells.Length && ValidKind(kind, d, Span(m, at, n))
  }

  /** What the Rust type of a setter admits: `BytesMut::set` takes a slice of any length. */
  predicate Offered(l: LeafType, v: LeafValue) {
    if l.Blob? then v.Raw? else LeafTyped(l, v)
  }

  // ----- which capability a field, an element, an option or a variant gives -----

  /** The capability of a value: its class follows its category. */
  datatype Handle = OnLeaf(leaf: LeafMut) | OnRecord(record: SchemaMut) | OnArray(elements: ArrayMut) {
    function Buf(): Buffer { match this case OnLeaf(l) => l.m case OnRecord(r) => r.m case OnArray(a) => a.m }
    function At(): nat { match this case OnLeaf(l) => l.at case OnRecord(r) => r.at case OnArray(a) => a.at }
    function Of(): Schema { match this case OnLeaf(l) => Atom(l.l) case OnRecord(r) => r.s case OnArray(a) => a.s }

    ghost predicate Live() reads Buf(), Buf().cells {
      Proved(Buf(), At(), Of()) && (OnRecord? ==> record.s.Record?) && (OnArray? ==> elements.s.Array?)
    }

    ghost predicate On(m: Buffer, at: nat, s: Schema) reads Buf(), Buf().cells {
      Live() && Buf() == m && At() == at && Of() == s
    }
  }

  datatype Maybe = None | Some(h: Handle)

  datatype FieldHandle = Plain(h: Handle) | Option(o: OptionMut) | Selected(t: TaggedMut) {
    function Buf(): Buffer { match this case Plain(h) => h.Buf() case Option(o) => o.m case Selected(t) => t.m }

    /** The capability of a field storage of `n` bytes under the tag `d`. */
    ghost predicate On(m: Buffer, at: nat, n: nat, kind: Kind, d: nat) reads Buf(), Buf().cells {
      && Buf() == m
      && match kind
         case Own(s) => Plain? && h.On(m, at, s)
         case Optional(s) => Option? && o.Live() && o.at == at && o.n == n && o.s == s
         case Payload(_, _) => Selected? && t.Live() && t.at == at && t.n == n && t.kind == kind && t.tag == d
    }
  }

  /** `make_mut` of a value: the capability its category has. */
  method Open(m: Buffer, at: nat, s: Schema) returns (h: Handle)
    requires Proved(m, at, s)
    ensures h.On(m, at, s)
  {
    hide Wf, Valid;
    if s.Atom? {
      var l := new LeafMut(m, at, s.leaf);
      h := OnLeaf(l);
    } else if s.Record? {
      var r := new SchemaMut(m, at, s);
      h := OnRecord(r);
    } else {
      var a := new ArrayMut(m, at, s);
      h := OnArray(a);
    }
  }

  method OpenField(m: Buffer, at: nat, n: nat, kind: Kind, d: nat) returns (f: FieldHandle)
    requires ProvedKind(m, at, n, kind, d) && (kind.Payload? ==> DistinctArms(kind.arms))
    ensures f.On(m, at, n, kind, d)
  {
    hide Wf, Valid;
    match kind {
      case Own(s) =>
        Front(m.cells[..], at, n, s.Size());
        var h := Open(m, at, s);
        f := Plain(h);
      case Optional(s) =>
        var o := new OptionMut(m, at, n, s);
        f := Option(o);
      case Payload(_, _) =>
        var t := new TaggedMut(m, at, n, kind, d);
        f := Selected(t);
    }
  }

  /** `ScalarMut`, `StringMut` and `BytesMut`. */
  class LeafMut {
    const m: Buffer
    const at: nat
    const l: LeafType

    ghost predicate Live() reads m, m.cells { Proved(m, at, Atom(l)) }

    constructor (m: Buffer, at: nat, l: LeafType)
      requires Proved(m, at, Atom(l))
      ensures this.m == m && this.at == at && this.l == l && Live()
    {
      this.m, this.at, this.l := m, at, l;
    }

    /** `prove`: a handle exists for a valid field and for no other. */
    static method Prove(m: Buffer, at: nat, l: LeafType) returns (h: LeafMut?)
      requires m.Valid() && LeafWf(l) && at + LeafSize(l) <= m.cells.Length
      ensures h != null <==> LeafValid(l, Span(m, at, LeafSize(l)))
      ensures h != null ==> h.m == m && h.at == at && h.l == l && h.Live()
    {
      h := null;
      if LeafValid(l, m.cells[..][at..at + LeafSize(l)]) { h := new LeafMut(m, at, l); }
    }

    /** The value read is one `set` accepts, and setting it again would change no byte. */
    method Get() returns (v: LeafValue)
      requires Live()
      ensures Decode(Atom(l), Span(m, at, LeafSize(l))) == Leaf(v)
      ensures LeafFits(l, v) && Here(Atom(l), Span(m, at, LeafSize(l)), Assign(Leaf(v))) == Span(m, at, LeafSize(l))
    {
      hide LeafValid, LeafDecode, LeafEncode, LeafTyped, LeafPreflight, LeafWf, LeafSize;
      LeafIdentity(l, Span(m, at, LeafSize(l)));
      v := LeafDecode(l, m.cells[..][at..at + LeafSize(l)]);
    }

    method Set(v: LeafValue) returns (ok: bool)
      requires Live() && Offered(l, v)
      modifies m, m.cells
      ensures Live() && ok == LeafFits(l, v)
      ensures m.cells[..] == Splice(old(m.cells[..]), at, Here(Atom(l), old(Span(m, at, LeafSize(l))), Assign(Leaf(v))))
      ensures ok ==> Decode(Atom(l), Span(m, at, LeafSize(l))) == Leaf(v)
      ensures !ok ==> m.log == old(m.log)
    {
      hide Splice, Replay, LeafEncode, LeafDecode, LeafValid, LeafPreflight, LeafTyped, LeafWf, LeafSize;
      SpliceSelf(m.cells[..], at, LeafSize(l));
      HereRefines(Atom(l), Span(m, at, LeafSize(l)), Assign(Leaf(v)));
      BlobFits(l, v);
      ok := if l.Blob? then |v.bytes| == l.n else LeafPreflight(l, v);
      if ok { CommitLeaf(m, at, l, v); }
    }

    /** `StringMut::clear`: the whole storage is zeroed, and the field reads back empty. */
    method Clear()
      requires Live() && (l.Text? || l.CText?)
      modifies m, m.cells
      ensures Live() && AllZero(Span(m, at, LeafSize(l)))
      ensures m.cells[..] == Splice(old(m.cells[..]), at, Here(Atom(l), old(Span(m, at, LeafSize(l))), Wipe))
      ensures Decode(Atom(l), Span(m, at, LeafSize(l))) == Leaf(Chars([]))
    {
      hide Splice, Replay, LeafValid, LeafDecode, LeafWf, LeafSize;
      m.Clear(at, LeafSize(l));
      ZeroText(l, Zeros(LeafSize(l)));
    }
  }

  lemma BlobFits(l: LeafType, v: LeafValue)
    requires Offered(l, v)
    ensures !l.Blob? ==> LeafTyped(l, v)
    ensures LeafFits(l, v) <==> if l.Blob? then |v.bytes| == l.n else LeafPreflight(l, v)
  {}

  /** The generated record and scalar-enum capability. */
  class SchemaMut {
    const m: Buffer
    const at: nat
    const s: Schema

    ghost predicate Live() reads m, m.cells { Proved(m, at, s) }

    constructor (m: Buffer, at: nat, s: Schema)
      requires Proved(m, at, s)
      ensures this.m == m && this.at == at && this.s == s && Live()
    {
      this.m, this.at, this.s := m, at, s;
    }

    /** `prove_mut`, the eager proof. */
    static method Prove(m: Buffer, at: nat, s: Schema) returns (h: SchemaMut?)
      requires m.Valid() && Wf(s) && at + s.Size() <= m.cells.Length
      ensures h != null <==> Valid(s, Span(m, at, s.Size()))
      ensures h != null ==> h.m == m && h.at == at && h.s == s && h.Live()
    {
      h := null;
      if Valid(s, m.cells[..][at..at + s.Size()]) { h := new SchemaMut(m, at, s); }
    }

    /** The value read has a representation, and `copy_from` of its patch would change no byte. */
    method CopyInto() returns (v: Value)
      requires Live()
      ensures v == Decode(s, Span(m, at, s.Size())) && Fits(s, v)
      ensures Typed(s, v) && Here(s, Span(m, at, s.Size()), Update(FromValue(s, v))) == Span(m, at, s.Size())
    {
      hide Wf, Valid, Decode, Fits, Typed, FromValue, Accepts, Patched;
      DecodeThenEncode(s, Span(m, at, s.Size()));
      CopyOwnValue(s, Span(m, at, s.Size()));
      v := Decode(s, m.cells[..][at..at + s.Size()]);
    }

    /** `copy_from`: the record is proved again, the patch is preflighted, and only then is any byte
        written. */
    method CopyFrom(p: Patch) returns (ok: bool)
      requires Live() && TypedPatch(s, p)
      modifies m, m.cells
      ensures Live() && ok == Accepts(s, old(Decode(s, Span(m, at, s.Size()))), p)
      ensures m.cells[..] == Splice(old(m.cells[..]), at, Here(s, old(Span(m, at, s.Size())), Update(p)))
      ensures ok ==> Decode(s, Span(m, at, s.Size())) == Apply(s, old(Decode(s, Span(m, at, s.Size()))), p)
      ensures ok ==> Published(s, Decode(s, Span(m, at, s.Size())), at, m.start, m.log, |old(m.log)|)
      ensures !ok ==> m.log == old(m.log)
    {
      hide Splice, Replay, Wf, Valid, Decode, Encode, Preflight, Accepts, Apply, Patched, Published;
      var b := m.cells[..][at..at + s.Size()];
      SpliceSelf(m.cells[..], at, s.Size());
      HereRefines(s, b, Update(p));
      PreflightExact(s, false, b, p);
      ok := Valid(s, b) && Preflight(s, false, b, p);
      if ok { CommitPatch(m, at, s, p, false); }
    }

    /** The mutator of field `k`. A tag sibling has none. A payload is selected by the tag read now. */
    method FieldMut(k: nat) returns (f: FieldHandle)
      requires Live() && s.Record? && k < s.Count() && !IsTag(s, k)
      ensures f.On(m, at + s.Off(k), s.Len(k), s.KindOf(k), Tag(s, Span(m, at, s.Size()), k))
    {
      hide Wf, WfKind, Valid, ValidKind, Decode, DecodeKind, Tag, Room;
      var b := m.cells[..][at..at + s.Size()];
      KidDecoded(s, b, k);
      WfKid(s, k);
      SpliceSelf(m.cells[..], at, s.Size());
      WindowPart(s, m.cells[..], at, b, k);
      f := OpenField(m, at + s.Off(k), s.Len(k), s.KindOf(k), Tag(s, b, k));
    }

    /** The record `clear()`, which exists only where `ClearState` is `ZeroValid`. */
    method Clear()
      requires Live() && s.Record? && Clearable(s)
      modifies m, m.cells
      ensures Live() && AllZero(Span(m, at, s.Size()))
      ensures m.cells[..] == Splice(old(m.cells[..]), at, Here(s, old(Span(m, at, s.Size())), Wipe))
    {
      hide Splice, Replay, Wf, Valid, Clearable;
      m.Clear(at, s.Size());
      ClearKeepsValid(s);
    }
  }

  /** `OptionMut`. Presence is scanned from the complete storage on every call. */
  class OptionMut {
    const m: Buffer
    const at: nat
    const n: nat
    const s: Schema

    ghost predicate Live() reads m, m.cells { ProvedKind(m, at, n, Optional(s), 0) }

    constructor (m: Buffer, at: nat, n: nat, s: Schema)
      requires ProvedKind(m, at, n, Optional(s), 0)
      ensures this.m == m && this.at == at && this.n == n && this.s == s && Live()
    {
      this.m, this.at, this.n, this.s := m, at, n, s;
    }

    static method Prove(m: Buffer, at: nat, n: nat, s: Schema) returns (h: OptionMut?)
      requires m.Valid() && WfKind(Optional(s)) && s.Size() <= n && at + n <= m.cells.Length
      ensures h != null <==> ValidKind(Optional(s), 0, Span(m, at, n))
      ensures h != null ==> h.m == m && h.at == at && h.n == n && h.s == s && h.Live()
    {
      hide Wf, Valid;
      h := null;
      Front(m.cells[..], at, n, s.Size());
      if AllZero(m.cells[..][at..at + n]) || Valid(s, m.cells[..][at..at + s.Size()]) {
        h := new OptionMut(m, at, n, s);
      }
    }

    /** The observation is one `set` accepts, and setting it again would change no byte. */
    method Get() returns (v: Value)
      requires Live()
      ensures v == DecodeKind(Optional(s), 0, Span(m, at, n)) && FitsKind(Optional(s), v)
      ensures HereOption(Optional(s), Span(m, at, n), v) == Span(m, at, n)
    {
      hide Wf, Valid, Decode, Fits, Encode;
      DecodeThenEncodeKind(Optional(s), 0, Span(m, at, n));
      Front(m.cells[..], at, n, s.Size());
      v := if AllZero(m.cells[..][at..at + n]) then Nothing else Just(Decode(s, m.cells[..][at..at + s.Size()]));
    }

    /** A child capability, for a present value only. */
    method GetMut() returns (r: Maybe)
      requires Live()
      ensures r.Some? <==> !AllZero(Span(m, at, n))
      ensures r.Some? ==> r.h.On(m, at, s)
    {
      hide Wf, Valid;
      r := None;
      Front(m.cells[..], at, n, s.Size());
      if !AllZero(m.cells[..][at..at + n]) {
        var h := Open(m, at, s);
        r := Some(h);
      }
    }

    /** `None` zeroes the whole storage; `Some` initialises the value over whatever is there. */
    method Set(v: Value) returns (ok: bool)
      requires Live() && TypedKind(Optional(s), v)
      modifies m, m.cells
      ensures Live() && ok == FitsKind(Optional(s), v)
      ensures m.cells[..] == Splice(old(m.cells[..]), at, HereOption(Optional(s), old(Span(m, at, n)), v))
      ensures ok ==> DecodeKind(Optional(s), 0, Span(m, at, n)) == v
      ensures ok ==> PublishedKind(Optional(s), v, at, m.start, m.log, |old(m.log)|)
      ensures !ok ==> m.log == old(m.log)
    {
      hide PublishedKind, Splice, Replay, Wf, WfKind, Valid, ValidKind, Encode, EncodeKind, Fits, PreflightValue,
        DecodeKind;
      assert WfKind(Optional(s)) ==> Wf(s) by { OptionalWf(s); }
      ghost var x := Span(m, at, n);
      Front(m.cells[..], at, n, s.Size());
      SpliceSelf(m.cells[..], at, n);
      ok := true;
      if v.Just? {
        var b := m.cells[..][at..at + s.Size()];
        PreflightValueExact(s, true, b, v.w);
        ok := PreflightValue(s, true, b, v.w);
      }
      if ok {
        SetThenGet(s, 0, x, v);
        CommitValueKind(m, at, n, Optional(s), v, true);
      }
    }
  }

  lemma OptionalWf(s: Schema)
    requires WfKind(Optional(s))
    ensures Wf(s)
  {}

  /** `ArrayMut`. */
  class ArrayMut {
    const m: Buffer
    const at: nat
    const s: Schema

    ghost predicate Live() reads m, m.cells { s.Array? && Proved(m, at, s) }

    constructor (m: Buffer, at: nat, s: Schema)
      requires s.Array? && Proved(m, at, s)
      ensures this.m == m && this.at == at && this.s == s && Live()
    {
      this.m, this.at, this.s := m, at, s;
    }

    /** One element, or none out of bounds. */
    method Get(index: nat) returns (some: bool, v: Value)
      requires Live()
      ensures some == (index < s.len)
      ensures some ==> v == Decode(s, Span(m, at, s.Size())).kids[index]
    {
      hide Wf, Valid, Decode;
      some, v := index < s.len, Nothing;
      if some {
        ElementLives(s, m.cells[..][at..at + s.Size()], index);
        v := Decode(s.cell.s, Part(s, m.cells[..][at..at + s.Size()], index));
      }
    }

    /** The capability of one element, or none out of bounds. */
    method GetMut(index: nat) returns (r: Maybe)
      requires Live()
      ensures r.Some? <==> index < s.len
      ensures r.Some? ==> s.cell.Own? && r.h.On(m, at + s.Off(index), s.cell.s)
    {
      hide Wf, Valid, Decode;
      r := None;
      if index < s.len {
        ElementInBuffer(s, m.cells[..], at, index);
        var h := Open(m, at + s.Off(index), s.cell.s);
        r := Some(h);
      }
    }

    /** One element is replaced after the bounds check and its preflight. */
    method Set(index: nat, v: Value) returns (ok: bool)
      requires Live() && (s.cell.Own? ==> Typed(s.cell.s, v))
      modifies m, m.cells
      ensures Live() && ok == (index < s.len && s.cell.Own? && Fits(s.cell.s, v))
      ensures m.cells[..] == Splice(old(m.cells[..]), at, Exec(s, old(Span(m, at, s.Size())), [index], Assign(v)))
      ensures ok ==>
        Decode(s, Span(m, at, s.Size())) == Node(Kids(old(Decode(s, Span(m, at, s.Size()))), s.len)[index := v])
      ensures ok ==> Published(s.cell.s, v, at + s.Off(index), m.start, m.log, |old(m.log)|)
      ensures !ok ==> m.log == old(m.log)
    {
      hide Published, Splice, Replay, Wf, Valid, Decode, Encode, Fits, PreflightValue, Exec, Typed, Kids, Schema.Off,
        Schema.Size;
      ghost var c0, b := m.cells[..], Span(m, at, s.Size());
      SpliceSelf(c0, at, s.Size());
      ElementReads(s, b, index, v);
      OutOfBounds(s, b, index, Assign(v));
      ok := false;
      if index < s.len {
        ElementInBuffer(s, c0, at, index);
        ElementWritten(s, c0, at, index, v);
        var lo := at + s.Off(index);
        var x := m.cells[..][lo..lo + s.stride];
        PreflightValueExact(s.cell.s, false, x, v);
        ok := PreflightValue(s.cell.s, false, x, v);
        if ok { CommitValue(m, lo, s.cell.s, v, false); }
      }
    }

    /** Two passes: every source is preflighted, in index order, before the first byte is written. */
    method CopyFrom(values: seq<Value>) returns (ok: bool)
      requires Live() && (s.cell.Own? ==> forall k :: 0 <= k < |values| ==> Typed(s.cell.s, values[k]))
      modifies m, m.cells
      ensures Live() && ok == Fits(s, Node(values))
      ensures m.cells[..] == Splice(old(m.cells[..]), at, Here(s, old(Span(m, at, s.Size())), Assign(Node(values))))
      ensures ok ==> Decode(s, Span(m, at, s.Size())) == Node(values)
      ensures ok ==> Published(s, Node(values), at, m.start, m.log, |old(m.log)|)
      ensures !ok ==> m.log == old(m.log)
    {
      hide Published, Splice, Replay, Wf, Valid, Decode, Encode, PreflightValue;
      var b := m.cells[..][at..at + s.Size()];
      SpliceSelf(m.cells[..], at, s.Size());
      HereRefines(s, b, Assign(Node(values)));
      if |values| != s.len { return false; }
      ArrayWf(s);
      for k := 0 to |values|
        invariant m.cells[..] == old(m.cells[..]) && m.log == old(m.log) && m.Valid()
        invariant forall i :: 0 <= i < k ==> Fits(s.cell.s, values[i])
      {
        ElementLives(s, b, k);
        var x := Part(s, b, k);
        PreflightValueExact(s.cell.s, false, x, values[k]);
        if !PreflightValue(s.cell.s, false, x, values[k]) {
          assert !FitsKind(s.KindOf(k), values[k]);
          return false;
        }
      }
      ok := true;
      assert forall k :: 0 <= k < s.Count() ==> FitsKind(s.KindOf(k), values[k]);
      CommitValueKids(m, at, s, Node(values), false);
    }
  }

  /** Every element of a proved array lies in it and is proved. */
  lemma ElementLives(s: Schema, b: seq<Byte>, k: nat)
    requires s.Array? && Wf(s) && |b| == s.Size() && Valid(s, b) && k < s.len
    ensures s.cell.Own? && Wf(s.cell.s) && s.stride == s.cell.s.Size() && s.Framed() && s.Off(k) + s.stride <= s.Size()
    ensures Valid(s.cell.s, Part(s, b, k))
    ensures Decode(s, b).Node? && |Decode(s, b).kids| == s.len
    ensures Decode(s, b).kids[k] == Decode(s.cell.s, Part(s, b, k))
  {
    KidDecoded(s, b, k);
    var x := Part(s, b, k);
    assert x[..s.stride] == x;
  }

  /** Every element of a proved array is proved where it lies in the buffer. */
  lemma ElementInBuffer(s: Schema, c: seq<Byte>, at: nat, k: nat)
    requires s.Array? && Wf(s) && at + s.Size() <= |c| && Valid(s, c[at..at + s.Size()]) && k < s.len
    ensures s.cell.Own? && Wf(s.cell.s) && s.stride == s.cell.s.Size() && s.Framed() && s.Off(k) + s.stride <= s.Size()
    ensures Part(s, c[at..at + s.Size()], k) == c[at + s.Off(k)..at + s.Off(k) + s.stride]
    ensures Valid(s.cell.s, c[at + s.Off(k)..at + s.Off(k) + s.stride])
  {
    hide Wf, Valid, Decode, Schema.Off, Schema.Size;
    ElementLives(s, c[at..at + s.Size()], k);
    PartAt(s, c, at, k);
  }

  /** A call into an element changes that element alone. */
  lemma ElementExec(s: Schema, b: seq<Byte>, path: seq<nat>, op: Op)
    requires s.Array? && Wf(s) && |b| == s.Size() && Valid(s, b) && path != [] && path[0] < s.len
    ensures s.cell.Own? && Wf(s.cell.s) && s.stride == s.cell.s.Size() && s.Framed() &&
      s.Off(path[0]) + s.stride <= s.Size()
    ensures Valid(s.cell.s, Part(s, b, path[0]))
    ensures Exec(s, b, path, op) == Splice(b, s.Off(path[0]), Exec(s.cell.s, Part(s, b, path[0]), path[1..], op))
  {
    hide Splice, Encode, Fits, Wf, Valid, Decode, Over, Here, ExecKind, ValidKind, WfKind, DecodeKind;
    ElementLives(s, b, path[0]);
    KidDecoded(s, b, path[0]);
    ElementKind(s.cell, Part(s, b, path[0]), path[1..], op);
  }

  lemma ElementKind(kind: Kind, x: seq<Byte>, path: seq<nat>, op: Op)
    requires kind.Own? && Wf(kind.s) && |x| == kind.s.Size() && ValidKind(kind, 0, x)
    ensures Valid(kind.s, x) && ExecKind(kind, 0, x, path, op) == Exec(kind.s, x, path, op)
  {
    hide Wf, Valid, Exec;
    assert x[..kind.s.Size()] == x;
  }

  lemma ElementAssign(s: Schema, b: seq<Byte>, k: nat, v: Value)
    requires s.Array? && Wf(s) && |b| == s.Size() && Valid(s, b) && k < s.len
    ensures s.cell.Own? && Wf(s.cell.s) && s.stride == s.cell.s.Size() && s.Framed() && s.Off(k) + s.stride <= s.Size()
    ensures Exec(s, b, [k], Assign(v)) ==
      if Fits(s.cell.s, v) then Splice(b, s.Off(k), Encode(s.cell.s, Part(s, b, k), v)) else b
  {
    hide Splice, Encode, Fits, Wf, Valid, Decode, Over, ExecKind;
    ElementExec(s, b, [k], Assign(v));
    assert [k][1..] == [];
    SpliceSelf(b, s.Off(k), s.stride);
  }

  /** The elements of a decoded array. */
  function Kids(v: Value, n: nat): (kids: seq<Value>)
    ensures |kids| == n
  {
    if v.Node? && |v.kids| == n then v.kids else seq(n, _ => Nothing)
  }

  lemma ElementReads(s: Schema, b: seq<Byte>, k: nat, v: Value)
    requires s.Array? && Wf(s) && |b| == s.Size() && Valid(s, b)
    ensures Valid(s, Exec(s, b, [k], Assign(v)))
    ensures k < s.len && s.cell.Own? && Fits(s.cell.s, v) ==>
      Decode(s, Exec(s, b, [k], Assign(v))) == Node(Kids(Decode(s, b), s.len)[k := v])
  {
    hide Wf, Valid, Decode, Exec, Fits;
    ExecRefines(s, b, [k], Assign(v));
    if k < s.len && s.cell.Own? && Fits(s.cell.s, v) {
      ElementLives(s, b, k);
      assert [k][1..] == [];
      ElementValue(s.cell, Decode(s, b).kids[k], v);
    }
  }

  lemma OutOfBounds(s: Schema, b: seq<Byte>, k: nat, op: Op)
    requires s.Array? && Wf(s) && |b| == s.Size() && Valid(s, b)
    ensures k >= s.len ==> Exec(s, b, [k], op) == b
  {}

  lemma ElementValue(kind: Kind, was: Value, v: Value)
    requires kind.Own? && Wf(kind.s) && Fits(kind.s, v)
    ensures ExecValueKind(kind, was, [], Assign(v)) == v
  {}

  /** The same, seen from the buffer. */
  lemma ElementWritten(s: Schema, c: seq<Byte>, at: nat, k: nat, v: Value)
    requires s.Array? && Wf(s) && at + s.Size() <= |c| && Valid(s, c[at..at + s.Size()]) && k < s.len
    ensures s.cell.Own? && Wf(s.cell.s) && s.stride == s.cell.s.Size() && s.Off(k) + s.stride <= s.Size()
    ensures Splice(c, at, Exec(s, c[at..at + s.Size()], [k], Assign(v))) ==
      var lo := at + s.Off(k); if Fits(s.cell.s, v) then Splice(c, lo, Encode(s.cell.s, c[lo..lo + s.stride], v)) else c
  {
    hide Splice, Wf, Valid, Encode, Fits, Exec, Schema.Off, Schema.Size;
    var b := c[at..at + s.Size()];
    ElementInBuffer(s, c, at, k);
    ElementAssign(s, b, k, v);
    SpliceSelf(c, at, s.Size());
    if Fits(s.cell.s, v) { SpliceWindow(c, at, b, s.Off(k), Encode(s.cell.s, Part(s, b, k), v)); }
  }

  lemma ArrayWf(s: Schema)
    requires s.Array? && Wf(s)
    ensures s.len > 0 && s.cell.Own? && Wf(s.cell.s) && s.stride == s.cell.s.Size()
  {}

  /** The selected-payload capability. It holds the decoded tag, and no access to the tag's bytes. */
  class TaggedMut {
    const m: Buffer
    const at: nat
    const n: nat
    const kind: Kind
    const tag: nat

    ghost predicate Live() reads m, m.cells {
      kind.Payload? && DistinctArms(kind.arms) && ProvedKind(m, at, n, kind, tag)
    }

    constructor (m: Buffer, at: nat, n: nat, kind: Kind, tag: nat)
      requires kind.Payload? && DistinctArms(kind.arms) && ProvedKind(m, at, n, kind, tag)
      ensures this.m == m && this.at == at && this.n == n && this.kind == kind && this.tag == tag && Live()
    {
      this.m, this.at, this.n, this.kind, this.tag := m, at, n, kind, tag;
    }

    /** The capability of variant `j`, when it is the selected one. */
    method VariantMut(j: nat) returns (r: Maybe)
      requires Live() && j < |kind.arms| && kind.arms[j].Newtype?
      ensures r.Some? <==> kind.arms[j].disc == tag
      ensures r.Some? ==> r.h.On(m, at, kind.arms[j].s)
    {
      hide Wf, Valid;
      r := None;
      if kind.arms[j].disc == tag {
        PickOwn(kind.arms, j);
        Front(m.cells[..], at, n, kind.arms[j].s.Size());
        var h := Open(m, at, kind.arms[j].s);
        r := Some(h);
      }
    }

    /** A patch of another variant is rejected; the selected one is patched in place. */
    method CopyFrom(p: Patch) returns (ok: bool)
      requires Live() && p.Choose? && p.pick < |kind.arms|
      requires kind.arms[p.pick].Newtype? ==> TypedPatch(kind.arms[p.pick].s, p.p)
      modifies m, m.cells
      ensures Live()
      ensures ok == (kind.arms[p.pick].disc == tag && AcceptsKind(kind, old(DecodeKind(kind, tag, Span(m, at, n))), p))
      ensures m.cells[..] == Splice(old(m.cells[..]), at, HerePayload(kind, tag, old(Span(m, at, n)), p))
      ensures ok ==>
        DecodeKind(kind, tag, Span(m, at, n)) == ApplyKind(kind, old(DecodeKind(kind, tag, Span(m, at, n))), p)
      ensures !ok ==> m.log == old(m.log)
    {
      hide Splice, Replay, Wf, WfKind, Valid, ValidKind, Decode, DecodeKind, Accepts, AcceptsKind, Here, HerePayload,
        TypedPatch, ApplyKind;
      ghost var c0, x := m.cells[..], Span(m, at, n);
      SpliceSelf(c0, at, n);
      SelectedHere(kind, tag, x, p);
      if kind.arms[p.pick].disc == tag { SelectedReads(kind, tag, x, p); }
      ok := kind.arms[p.pick].disc == tag;
      if ok && kind.arms[p.pick].Newtype? {
        Front(c0, at, n, kind.arms[p.pick].s.Size());
        var h := new SchemaMut(m, at, kind.arms[p.pick].s);
        ok := h.CopyFrom(p.p);
        SpliceFront(c0, at, n, Here(h.s, x[..h.s.Size()], Update(p.p)));
      }
    }
  }

  /** What `copy_from` does to a selected payload. */
  lemma SelectedHere(kind: Kind, d: nat, x: seq<Byte>, p: Patch)
    requires WfKind(kind) && kind.Payload? && Room(kind, |x|) && ValidKind(kind, d, x) && DistinctArms(kind.arms)
    requires p.Choose? && p.pick < |kind.arms|
    ensures ValidKind(kind, d, HerePayload(kind, d, x, p))
    ensures kind.arms[p.pick].disc != d || kind.arms[p.pick].Unit? ==> HerePayload(kind, d, x, p) == x
    ensures kind.arms[p.pick].Unit? ==> AcceptsKind(kind, DecodeKind(kind, d, x), p)
    ensures kind.arms[p.pick].Newtype? && kind.arms[p.pick].disc == d ==>
      var c := kind.arms[p.pick].s;
      && Wf(c) && c.Size() <= |x| && Valid(c, x[..c.Size()])
      && HerePayload(kind, d, x, p) == Over(x, Here(c, x[..c.Size()], Update(p.p)))
      && (AcceptsKind(kind, DecodeKind(kind, d, x), p) <==> Accepts(c, Decode(c, x[..c.Size()]), p.p))
  {
    hide Wf, Valid, Decode, Accepts, Here;
    PickOwn(kind.arms, p.pick);
    var c := kind.arms[Pick(kind.arms, d)];
    if c.Newtype? { HereKeepsValid(c.s, x[..c.s.Size()], Update(p.p)); }
  }

  /** What it then reads as. */
  lemma SelectedReads(kind: Kind, d: nat, x: seq<Byte>, p: Patch)
    requires WfKind(kind) && kind.Payload? && Room(kind, |x|) && ValidKind(kind, d, x) && DistinctArms(kind.arms)
    requires p.Choose? && p.pick < |kind.arms| && kind.arms[p.pick].disc == d
    requires kind.arms[p.pick].Newtype? ==> TypedPatch(kind.arms[p.pick].s, p.p)
    ensures ValidKind(kind, d, HerePayload(kind, d, x, p))
    ensures AcceptsKind(kind, DecodeKind(kind, d, x), p) ==>
      DecodeKind(kind, d, HerePayload(kind, d, x, p)) == ApplyKind(kind, DecodeKind(kind, d, x), p)
  {
    hide Wf, Valid, Decode, Accepts, Here, Apply;
    PickOwn(kind.arms, p.pick);
    var arm := kind.arms[p.pick];
    if arm.Newtype? { HereRefines(arm.s, x[..arm.s.Size()], Update(p.p)); }
  }
}
