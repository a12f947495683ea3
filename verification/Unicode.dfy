/** UTF-8 as section 3 of RFC 3629 defines it, from the encoded side: the scalar values and the octets each
    one is written as. */
module Unicode {
  import opened Leaves

  /** A Unicode scalar value: a code point that is no surrogate. */
  predicate IsScalarValue(c: nat) { c < 0xD800 || 0xE000 <= c < 0x110000 }

  /** The octets of one scalar value: the high bits after the length mark, then six bits an octet. */
  function Octets(c: nat): (s: seq<nat>)
    ensures 1 <= |s| <= 4
  {
    if c < 0x80 then [c]
    else if c < 0x800 then [0xC0 + c / 64, 0x80 + c % 64]
    else if c < 0x10000 then [0xE0 + c / 4096, 0x80 + c / 64 % 64, 0x80 + c % 64]
    else [0xF0 + c / 262144, 0x80 + c / 4096 % 64, 0x80 + c / 64 % 64, 0x80 + c % 64]
  }

  predicate AllScalarValues(cs: seq<nat>) {
    forall i :: 0 <= i < |cs| ==> IsScalarValue(cs[i])
  }

  function Encoded(cs: seq<nat>): seq<nat> {
    if cs == [] then [] else Octets(cs[0]) + Encoded(cs[1..])
  }

  /** The scalar value a well-formed front denotes. */
  function Front(s: seq<nat>): (c: nat)
    requires Utf8Head(s) > 0
  {
    match Utf8Head(s)
    case 1 => s[0]
    case 2 => (s[0] - 0xC0) * 64 + (s[1] - 0x80)
    case 3 => (s[0] - 0xE0) * 4096 + (s[1] - 0x80) * 64 + (s[2] - 0x80)
    case _ => (s[0] - 0xF0) * 262144 + (s[1] - 0x80) * 4096 + (s[2] - 0x80) * 64 + (s[3] - 0x80)
  }

  lemma FrontOctets(s: seq<nat>)
    requires Utf8Head(s) > 0
    ensures IsScalarValue(Front(s)) && Octets(Front(s)) == s[..Utf8Head(s)]
  {
    match Utf8Head(s)
    case 1 =>
    case 2 => SixBits(s[0] - 0xC0, s[1] - 0x80);
    case 3 =>
      SixBits((s[0] - 0xE0) * 64 + (s[1] - 0x80), s[2] - 0x80);
      SixBits(s[0] - 0xE0, s[1] - 0x80);
    case _ => FrontOctets4(s);
  }

  lemma FrontOctets4(s: seq<nat>)
    requires Utf8Head(s) == 4
    ensures IsScalarValue(Front(s)) && Octets(Front(s)) == s[..4]
  {
    var a, b, c, d := s[0] - 0xF0, s[1] - 0x80, s[2] - 0x80, s[3] - 0x80;
    SixBits(a, b);
    SixBits(a * 64 + b, c);
    SixBits(a * 4096 + b * 64 + c, d);
    var x := Front(s);
    assert x / 4096 == x / 64 / 64 && x / 262144 == x / 64 / 64 / 64;
  }

  lemma SixBits(high: nat, low: nat)
    requires low < 64
    ensures (high * 64 + low) / 64 == high && (high * 64 + low) % 64 == low
  {}

  /** The octets of a scalar value are a well-formed front, whatever follows. */
  lemma OctetsFront(c: nat, rest: seq<nat>)
    requires IsScalarValue(c)
    ensures Utf8Head(Octets(c) + rest) == |Octets(c)|
  {
    hide Octets, Utf8Head;
    var s := Octets(c) + rest;
    assert forall i :: 0 <= i < |Octets(c)| ==> s[i] == Octets(c)[i];
    if c < 0x800 { ShortFront(c, s); } else if c < 0x10000 { Front3(c, s); } else { Front4(c, s); }
  }

  lemma ShortFront(c: nat, s: seq<nat>)
    requires c < 0x800 && |Octets(c)| <= |s| && forall i :: 0 <= i < |Octets(c)| ==> s[i] == Octets(c)[i]
    ensures Utf8Head(s) == |Octets(c)|
  {}

  lemma Front3(c: nat, s: seq<nat>)
    requires IsScalarValue(c) && 0x800 <= c < 0x10000
    requires |Octets(c)| <= |s| && forall i :: 0 <= i < |Octets(c)| ==> s[i] == Octets(c)[i]
    ensures Utf8Head(s) == |Octets(c)|
  {
    assert s[0] == 0xE0 + c / 4096 && s[1] == 0x80 + c / 64 % 64 && s[2] == 0x80 + c % 64;
  }

  lemma Front4(c: nat, s: seq<nat>)
    requires IsScalarValue(c) && 0x10000 <= c
    requires |Octets(c)| <= |s| && forall i :: 0 <= i < |Octets(c)| ==> s[i] == Octets(c)[i]
    ensures Utf8Head(s) == |Octets(c)|
  {
    assert s[0] == 0xF0 + c / 262144 && s[1] == 0x80 + c / 4096 % 64;
    assert s[2] == 0x80 + c / 64 % 64 && s[3] == 0x80 + c % 64;
  }

  /** The string proof accepts exactly the encodings of sequences of scalar values. */
  lemma Utf8Exactly(s: seq<nat>)
    ensures Utf8(s) <==> exists cs :: AllScalarValues(cs) && Encoded(cs) == s
  {
    if Utf8(s) { var cs := Utf8Decodes(s); }
    forall cs | AllScalarValues(cs) && Encoded(cs) == s ensures Utf8(s) { Utf8Encodes(cs); }
  }

  lemma {:induction false} Utf8Decodes(s: seq<nat>) returns (cs: seq<nat>)
    requires Utf8(s)
    ensures AllScalarValues(cs) && Encoded(cs) == s
  {
    if s == [] {
      cs := [];
    } else {
      FrontOctets(s);
      var rest := Utf8Decodes(s[Utf8Head(s)..]);
      cs := [Front(s)] + rest;
      assert cs[1..] == rest;
    }
  }

  lemma {:induction false} Utf8Encodes(cs: seq<nat>)
    requires AllScalarValues(cs)
    ensures Utf8(Encoded(cs))
  {
    if cs != [] {
      var s := Encoded(cs);
      OctetsFront(cs[0], Encoded(cs[1..]));
      Utf8Encodes(cs[1..]);
      assert s[|Octets(cs[0])|..] == Encoded(cs[1..]);
    }
  }
}
