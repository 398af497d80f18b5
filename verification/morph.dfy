/**
 * handleFiles: one source/target/patch triple, from the bytes read from the
 * three files to what is written to the output file, or to return code 1.
 *
 * Reading and writing files, decoding UTF-8 and computing the patch list are
 * outside the model: the bytes of each file arrive as an Option (None when
 * the file is not a readable file), and UTF-8 decoding (QString::fromUtf8)
 * and the patch builder (diff_match_patch::patch_make) are parameters.
 */
module Morph {
  import opened Wrappers
  import opened Text
  import opened Blanking
  import opened Reconciliation
  import opened Replay

  datatype Role = SourceFile | TargetFile | PatchFile

  /** Why handleFiles returns 1. */
  datatype Failure =
    | Unreadable(role: Role)
    | SizeMismatch(patchLength: nat, sourceLength: nat)
    | LengthMismatch(targetLength: nat, outLength: nat)

  /** What handleFiles does with the output file. Every outcome but Fail returns 0. */
  datatype Outcome =
    | Fail(failure: Failure)
    | RemoveOutput            // the target is missing under auto mode: delete the output file if it exists
    | Unchanged               // ignore mode and identical source and target: nothing is written
    | CopyTarget(data: Bytes) // binary or empty source: the target bytes are written verbatim
    | WritePatched(text: Units) // the patched text, written UTF-8 encoded

  /** The arguments of handleFiles: the bytes of each file when it could be read, and the options. */
  datatype Request = Request(
    source: Option<Bytes>, target: Option<Bytes>, patch: Option<Bytes>,
    auto: bool, force: bool, ignore: bool, fill: Units)

  /** The three buffers once read: a missing target is flagged, a missing patch file is the source, to be blanked. */
  datatype Buffers = Buffers(source: Bytes, target: Bytes, targetMissing: bool, patch: Bytes, blank: bool)

  /** The source bytes handleFiles works with: a missing source reads as empty under auto mode. */
  function SourceBytes(q: Request): (r: Bytes)
  {
    if q.source.Some? then q.source.value else []
  }

  /** The patch bytes handleFiles works with: a missing patch file reads as the source under auto mode. */
  function PatchBytes(q: Request): (r: Bytes)
  {
    if q.patch.Some? then q.patch.value else SourceBytes(q)
  }

  /** Every file handleFiles needs could be read, or auto mode stands in for the missing ones. */
  predicate Readable(q: Request)
  {
    q.auto || (q.source.Some? && q.target.Some? && q.patch.Some?)
  }

  /**
   * The reading stage: without auto mode, the first of source, target and
   * patch file that cannot be read ends the call with return code 1.
   */
  function Resolve(q: Request): (r: Result<Buffers, Failure>)
    ensures r.Err? <==> !Readable(q)
    ensures r.Err? ==>
              r.error == Unreadable(if q.source.None? then SourceFile
                                    else if q.target.None? then TargetFile
                                    else PatchFile)
    ensures r.Ok? ==>
              r.value.source == SourceBytes(q) &&
              r.value.targetMissing == q.target.None? &&
              (q.target.Some? ==> r.value.target == q.target.value) &&
              r.value.blank == q.patch.None? &&
              r.value.patch == PatchBytes(q)
  {
    if q.source.None? && !q.auto then Err(Unreadable(SourceFile))
    else if q.target.None? && !q.auto then Err(Unreadable(TargetFile))
    else if q.patch.None? && !q.auto then Err(Unreadable(PatchFile))
    else
      var source := if q.source.Some? then q.source.value else [];
      var target := if q.target.Some? then q.target.value else [];
      var patch := if q.patch.Some? then q.patch.value else source;
      Ok(Buffers(source, target, q.target.None?, patch, q.patch.None?))
  }

  /** How many leading bytes of each file the binary check looks at. */
  const BinaryWindow: nat := 8000

  /** Whether a NUL byte occurs among the first 8000 bytes of data (QByteArray::left(8000).contains(0)). */
  function ContainsNul(data: Bytes): (r: bool)
    ensures r <==> exists i :: 0 <= i < |data| && i < BinaryWindow && data[i] == NUL
  {
    NUL in Left(data, BinaryWindow)
  }

  /** The binary-or-empty check: an empty source, or a NUL byte early in any of the three files. */
  predicate LooksBinary(source: Bytes, target: Bytes, patch: Bytes)
  {
    source == [] || ContainsNul(source) || ContainsNul(target) || ContainsNul(patch)
  }

  /** The patch text before the size check: the decoded patch file, blanked when it stands in for a missing one. */
  function WorkingText(q: Request, decode: Bytes -> Units): (r: Units)
  {
    if q.patch.Some? then decode(q.patch.value) else Blank(decode(SourceBytes(q)), q.fill)
  }

  /** The call reaches the text stages: everything is readable, the target exists, nothing is ignored and nothing is binary. */
  predicate PatchRoute(q: Request)
  {
    Readable(q) && q.target.Some? &&
    !(q.ignore && SourceBytes(q) == q.target.value) &&
    !LooksBinary(SourceBytes(q), q.target.value, PatchBytes(q))
  }

  /**
   * The behaviour of the text stages is defined by the code: the fill string
   * is not empty when padding reads fill.at(0), and every QString::remove and
   * QString::insert of the replay is inside the working copy.
   */
  predicate Replayable(q: Request, decode: Bytes -> Units, makePatches: (Units, Units) -> seq<Patch>)
  {
    PatchRoute(q) ==>
      var s := decode(SourceBytes(q));
      var w := WorkingText(q, decode);
      (q.force && |w| < |s| ==> q.fill != []) &&
      (Reconcile(w, |s|, q.force, q.fill).Some? ==>
         Apply(Reconcile(w, |s|, q.force, q.fill).value, makePatches(s, decode(q.target.value))).Some?)
  }

  /** What handleFiles does for one request. */
  function Morph(q: Request, decode: Bytes -> Units, makePatches: (Units, Units) -> seq<Patch>): (o: Outcome)
    requires Replayable(q, decode, makePatches)
    ensures (o.Fail? && o.failure.Unreadable?) <==> !Readable(q)
    ensures o == RemoveOutput <==> q.auto && q.target.None?
    ensures o == Unchanged <==> Readable(q) && q.target.Some? && q.ignore && SourceBytes(q) == q.target.value
    ensures o.CopyTarget? <==>
              Readable(q) && q.target.Some? && !(q.ignore && SourceBytes(q) == q.target.value) &&
              LooksBinary(SourceBytes(q), q.target.value, PatchBytes(q))
    ensures o.CopyTarget? ==> o.data == q.target.value
    ensures o.Fail? && o.failure.SizeMismatch? ==>
              PatchRoute(q) && !q.force && o.failure.patchLength != o.failure.sourceLength
    ensures o.Fail? && o.failure.LengthMismatch? ==>
              PatchRoute(q) && o.failure.targetLength == |decode(q.target.value)| &&
              o.failure.outLength != o.failure.targetLength
    ensures o.WritePatched? ==> PatchRoute(q) && |o.text| == |decode(q.target.value)|
  {
    match Resolve(q)
    case Err(f) => Fail(f)
    case Ok(b) =>
      if b.targetMissing then RemoveOutput
      else if q.ignore && b.source == b.target then Unchanged
      else if LooksBinary(b.source, b.target, b.patch) then CopyTarget(b.target)
      else
        var s := decode(b.source);
        var t := decode(b.target);
        var w := if b.blank then Blank(decode(b.patch), q.fill) else decode(b.patch);
        match Reconcile(w, |s|, q.force, q.fill)
        case None => Fail(SizeMismatch(|w|, |s|))
        case Some(reconciled) =>
          var out := Apply(reconciled, makePatches(s, t)).value;
          if |out| != |t| then Fail(LengthMismatch(|t|, |out|)) else WritePatched(out)
  }

  /**
   * On the text route: without force a working copy of another length than
   * the source fails the size check; otherwise the call succeeds exactly
   * when source length plus inserted minus deleted text is the target
   * length, and a working copy of the source's length is patched as it is.
   */
  lemma PatchRouteOutcome(q: Request, decode: Bytes -> Units, makePatches: (Units, Units) -> seq<Patch>)
    requires Replayable(q, decode, makePatches)
    requires PatchRoute(q)
    ensures var s := decode(SourceBytes(q));
            var w := WorkingText(q, decode);
            Morph(q, decode, makePatches) == Fail(SizeMismatch(|w|, |s|)) <==> !q.force && |w| != |s|
    ensures var s := decode(SourceBytes(q));
            var t := decode(q.target.value);
            var w := WorkingText(q, decode);
            var ps := makePatches(s, t);
            Morph(q, decode, makePatches).WritePatched? <==>
              (q.force || |w| == |s|) && |s| + PatchTotal(ps, Insert) - PatchTotal(ps, Delete) == |t|
    ensures var s := decode(SourceBytes(q));
            var t := decode(q.target.value);
            var w := WorkingText(q, decode);
            |w| == |s| && Morph(q, decode, makePatches).WritePatched? ==>
              Apply(w, makePatches(s, t)) == Some(Morph(q, decode, makePatches).text)
  {
    var s := decode(SourceBytes(q));
    var t := decode(q.target.value);
    var w := WorkingText(q, decode);
    var b := Resolve(q).value;
    assert decode(b.source) == s && decode(b.target) == t;
    assert (if b.blank then Blank(decode(b.patch), q.fill) else decode(b.patch)) == w;
  }

  /**
   * handleFiles, step by step: read or substitute
   * the three buffers, decide, blank, reconcile the size in place, replay the
   * patches and check the final length.
   */
  method HandleFiles(q: Request, decode: Bytes -> Units, makePatches: (Units, Units) -> seq<Patch>)
    returns (o: Outcome)
    requires Replayable(q, decode, makePatches)
    ensures o == Morph(q, decode, makePatches)
  {
    var sourceData: Bytes;
    if q.source.Some? {
      sourceData := q.source.value;
    } else if q.auto {
      sourceData := [];
    } else {
      return Fail(Unreadable(SourceFile));
    }
    var targetData: Bytes := [];
    var targetNotExists := false;
    if q.target.Some? {
      targetData := q.target.value;
    } else if q.auto {
      targetNotExists := true;
    } else {
      return Fail(Unreadable(TargetFile));
    }
    var patchData: Bytes;
    var blank := false;
    if q.patch.Some? {
      patchData := q.patch.value;
    } else if q.auto {
      patchData := sourceData;
      blank := true;
    } else {
      return Fail(Unreadable(PatchFile));
    }

    if targetNotExists {
      return RemoveOutput;
    } else if q.ignore && sourceData == targetData {
      return Unchanged;
    }
    if LooksBinary(sourceData, targetData, patchData) {
      return CopyTarget(targetData);
    }

    var sourceContent := decode(sourceData);
    var targetContent := decode(targetData);
    var patchContent := decode(patchData);
    if blank {
      patchContent := Blank(patchContent, q.fill);
    }
    assert patchContent == WorkingText(q, decode);
    if |patchContent| != |sourceContent| {
      if q.force {
        if |patchContent| > |sourceContent| {
          patchContent := patchContent[..|sourceContent|];
        } else {
          patchContent := patchContent + Repeat(q.fill[0], |sourceContent| - |patchContent|);
        }
      } else {
        return Fail(SizeMismatch(|patchContent|, |sourceContent|));
      }
    }
    var patches := makePatches(sourceContent, targetContent);
    patchContent := ReplayPatches(patches, patchContent);
    if |patchContent| != |targetContent| {
      return Fail(LengthMismatch(|targetContent|, |patchContent|));
    }
    return WritePatched(patchContent);
  }
}
