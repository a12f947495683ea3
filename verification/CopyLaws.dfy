/** What `copy_from` and initialisation promise as a whole. */
module CopyLaws {
  import opened Bytes
  import opened Schemas
  import opened Codec
  import opened RoundTrip
  import opened Patches
  import opened PatchLaws
  import opened Frames
  import opened PatchCommits

  /** Patch refinement: the committed span is valid and decodes to the patch applied to what was
      there. */
  lemma CopyFromRefines(s: Schema, b: seq<Byte>, p: Patch)
    requires Wf(s) && |b| == s.Size() && Ready(s, false, b, p)
    ensures Valid(s, Patched(s, false, b, p))
    ensures Decode(s, Patched(s, false, b, p)) == Apply(s, Decode(s, b), p)
  {
    LiveFits(s, false, b, p);
    EncodeThenDecode(s, b, Apply(s, Decode(s, b), p));
  }

  /** Initialisation over garbage: a complete patch that passes `preflight_init` over one content
      passes over any other, and makes both spans valid with the same value, the patch's own. */
  lemma InitOverGarbage(s: Schema, b: seq<Byte>, c: seq<Byte>, p: Patch)
    requires Wf(s) && |b| == |c| == s.Size() && TypedPatch(s, p) && Complete(s, p) && Preflight(s, true, b, p)
    ensures Preflight(s, true, c, p) && Ready(s, true, b, p) && Ready(s, true, c, p)
    ensures Valid(s, Patched(s, true, b, p)) && Valid(s, Patched(s, true, c, p))
    ensures Decode(s, Patched(s, true, b, p)) == Decode(s, Patched(s, true, c, p)) == Apply(s, Nothing, p)
  {
    PreflightExact(s, true, b, p);
    PreflightExact(s, true, c, p);
    LiveFits(s, true, b, p);
    EncodeThenDecode(s, b, Apply(s, Nothing, p));
    EncodeThenDecode(s, c, Apply(s, Nothing, p));
  }

  /** Over a live value `preflight` and `preflight_init` agree on a complete patch, and the patch then
      writes the same bytes whether it updates or initialises. */
  lemma CompleteCommitsAlike(s: Schema, b: seq<Byte>, p: Patch)
    requires Wf(s) && |b| == s.Size() && Valid(s, b) && TypedPatch(s, p) && Complete(s, p)
    ensures Preflight(s, false, b, p) <==> Preflight(s, true, b, p)
    ensures Ready(s, false, b, p) <==> Ready(s, true, b, p)
    ensures Preflight(s, false, b, p) ==> Ready(s, false, b, p) && Patched(s, false, b, p) == Patched(s, true, b, p)
  {
    PreflightExact(s, false, b, p);
    PreflightExact(s, true, b, p);
    CompleteAccepts(s, Decode(s, b), Nothing, p);
    CompleteIgnores(s, Decode(s, b), Nothing, p);
  }

  /** Applying an accepted patch again is accepted and changes no byte. */
  lemma CopyFromTwice(s: Schema, b: seq<Byte>, p: Patch)
    requires Wf(s) && |b| == s.Size() && Ready(s, false, b, p)
    ensures Ready(s, false, Patched(s, false, b, p), p)
    ensures Patched(s, false, Patched(s, false, b, p), p) == Patched(s, false, b, p)
  {
    CopyFromRefines(s, b, p);
    DecodeThenEncode(s, b);
    ApplyTwice(s, Decode(s, b), p);
    LiveFits(s, false, b, p);
    EncodeTwice(s, b, Apply(s, Decode(s, b), p));
  }

  /** Patching a record with the patch of its own `copy_into` value is accepted and changes no byte. */
  lemma CopyOwnValue(s: Schema, b: seq<Byte>)
    requires Wf(s) && |b| == s.Size() && Valid(s, b)
    ensures Typed(s, Decode(s, b)) && Ready(s, false, b, FromValue(s, Decode(s, b)))
    ensures Patched(s, false, b, FromValue(s, Decode(s, b))) == b
  {
    var v := Decode(s, b);
    DecodeThenEncode(s, b);
    FitsTyped(s, v);
    FromValueMeans(s, v, v);
  }
}
