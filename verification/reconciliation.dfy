/**
 * Size reconciliation: the patch offsets are computed against the source
 * text, so the working copy must have the source's length before patching.
 */
module Reconciliation {
  import opened Text
  import opened Wrappers
  import opened Blanking

  /**
   * The working copy after the size check. None is the failure "patch file
   * size differs" (return code 1). With force, a longer copy is truncated to
   * the source length and a shorter one is padded with fill.at(0).
   * The requires excludes fill.at(0) on an empty fill string, whose outcome
   * is not defined by the code.
   */
  function Reconcile(patch: Units, sourceLength: nat, force: bool, fill: Units): (r: Option<Units>)
    requires force && |patch| < sourceLength ==> fill != []
    ensures r.None? <==> |patch| != sourceLength && !force
    ensures |patch| == sourceLength ==> r == Some(patch)
    ensures r.Some? ==> |r.value| == sourceLength
    ensures r.Some? && |patch| >= sourceLength ==> r.value == patch[..sourceLength]
    ensures r.Some? && |patch| < sourceLength ==>
              r.value[..|patch|] == patch &&
              forall i :: |patch| <= i < sourceLength ==> r.value[i] == fill[0]
  {
    if |patch| == sourceLength then Some(patch)
    else if !force then None
    else if |patch| > sourceLength then Some(patch[..sourceLength])
    else Some(patch + Repeat(fill[0], sourceLength - |patch|))
  }

  /** A source blanked one code unit at a time with a non-empty fill passes the size check untouched. */
  lemma BlankedSourcePassesSizeCheck(source: Units, force: bool, fill: Units)
    requires fill != []
    ensures Reconcile(Blank(source, fill), |source|, force, fill) == Some(Blank(source, fill))
  {
  }

  /**
   * As written, blanking a source that holds a surrogate pair leaves a copy
   * shorter than the source, so without force the size check fails.
   */
  lemma BlankAsWrittenFailsSizeCheck(source: Units, fill: Units)
    requires fill != []
    requires HasSurrogatePair(source)
    ensures Reconcile(BlankAsWritten(source, fill), |source|, false, fill).None?
  {
    BlankAsWrittenShortens(source, fill);
  }
}
