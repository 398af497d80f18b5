/**
 * Replay of a patch list onto the working copy. Every patch record restarts
 * a cursor at its start1 and walks its diffs in order: a DELETE removes as
 * many units as its text is long at the cursor, an INSERT splices its text in
 * at the cursor and moves past it, an EQUAL only moves the cursor.
 */
module Replay {
  import opened Text
  import opened Wrappers

  datatype Operation = Delete | Insert | Equal

  /** One diff of a patch record: an operation and the text it concerns. */
  datatype Diff = Diff(operation: Operation, text: Units)

  /** A patch record: the offset start1 at which the record is replayed and its diffs. */
  datatype Patch = Patch(start1: nat, diffs: seq<Diff>)

  /** The working copy and the running cursor (targetIndex). */
  datatype Cursor = Cursor(content: Units, index: nat)

  /**
   * Whether QString::remove or QString::insert would be called inside the
   * string: DELETE needs the whole removed span inside the working copy,
   * INSERT a cursor at most at its end; EQUAL calls neither.
   */
  predicate InRange(c: Cursor, d: Diff)
  {
    match d.operation
    case Delete => c.index + |d.text| <= |c.content|
    case Insert => c.index <= |c.content|
    case Equal => true
  }

  /**
   * The effect of one diff. None stands for a remove or insert outside the
   * working copy, whose effect the code does not define.
   */
  function Step(c: Cursor, d: Diff): (r: Option<Cursor>)
    ensures r.Some? <==> InRange(c, d)
  {
    if !InRange(c, d) then None
    else
      match d.operation
      case Delete => Some(Cursor(c.content[..c.index] + c.content[c.index + |d.text|..], c.index))
      case Insert => Some(Cursor(c.content[..c.index] + d.text + c.content[c.index..], c.index + |d.text|))
      case Equal => Some(Cursor(c.content, c.index + |d.text|))
  }

  /**
   * What one diff does, in range: DELETE keeps the cursor and closes the gap
   * of |text| units after it; INSERT places text at the cursor and moves past
   * it; EQUAL moves the cursor and changes nothing. No diff touches the
   * working copy before the cursor.
   */
  lemma StepEffect(c: Cursor, d: Diff)
    requires InRange(c, d)
    ensures Step(c, d).Some?
    ensures d.operation == Delete ==>
              var r := Step(c, d).value;
              r.index == c.index &&
              |r.content| == |c.content| - |d.text| &&
              r.content[..c.index] == c.content[..c.index] &&
              r.content[c.index..] == c.content[c.index + |d.text|..]
    ensures d.operation == Insert ==>
              var r := Step(c, d).value;
              r.index == c.index + |d.text| &&
              |r.content| == |c.content| + |d.text| &&
              r.content[..c.index] == c.content[..c.index] &&
              r.content[c.index..r.index] == d.text &&
              r.content[r.index..] == c.content[c.index..]
    ensures d.operation == Equal ==>
              var r := Step(c, d).value;
              r.content == c.content && r.index == c.index + |d.text|
  {
  }

  /** Total text length of the diffs with operation op. */
  function Total(ds: seq<Diff>, op: Operation): (n: nat)
  {
    if ds == [] then 0
    else Total(ds[..|ds| - 1], op) + (if ds[|ds| - 1].operation == op then |ds[|ds| - 1].text| else 0)
  }

  /** Total text length of the diffs with operation op over a whole patch list. */
  function PatchTotal(ps: seq<Patch>, op: Operation): (n: nat)
  {
    if ps == [] then 0 else PatchTotal(ps[..|ps| - 1], op) + Total(ps[|ps| - 1].diffs, op)
  }

  /**
   * The diffs of one record, replayed in order from cursor c. The cursor
   * moves forward only, by the inserted and the skipped text; the working
   * copy grows by the inserted text and shrinks by the deleted text.
   */
  function RunDiffs(c: Cursor, ds: seq<Diff>): (r: Option<Cursor>)
    ensures r.Some? ==> |r.value.content| == |c.content| + Total(ds, Insert) - Total(ds, Delete)
    ensures r.Some? ==> r.value.index == c.index + Total(ds, Insert) + Total(ds, Equal)
    decreases |ds|
  {
    if ds == [] then Some(c)
    else
      match RunDiffs(c, ds[..|ds| - 1])
      case None => None
      case Some(mid) =>
        if InRange(mid, ds[|ds| - 1]) then StepEffect(mid, ds[|ds| - 1]); Step(mid, ds[|ds| - 1])
        else None
  }

  /**
   * The patch records, replayed in order onto the working copy, each from a
   * cursor reset to its own start1. The result is as long as the working
   * copy plus everything inserted minus everything deleted.
   */
  function Apply(content: Units, ps: seq<Patch>): (r: Option<Units>)
    ensures r.Some? ==> |r.value| == |content| + PatchTotal(ps, Insert) - PatchTotal(ps, Delete)
    decreases |ps|
  {
    if ps == [] then Some(content)
    else
      match Apply(content, ps[..|ps| - 1])
      case None => None
      case Some(mid) =>
        match RunDiffs(Cursor(mid, ps[|ps| - 1].start1), ps[|ps| - 1].diffs)
        case None => None
        case Some(c) => Some(c.content)
  }

  /** The cursor an in-place update of the working copy leaves is the one Step describes. */
  lemma StepIs(c: Cursor, d: Diff, r: Cursor)
    requires InRange(c, d)
    requires d.operation == Delete ==> r == Cursor(c.content[..c.index] + c.content[c.index + |d.text|..], c.index)
    requires d.operation == Insert ==> r == Cursor(c.content[..c.index] + d.text + c.content[c.index..], c.index + |d.text|)
    requires d.operation == Equal ==> r == Cursor(c.content, c.index + |d.text|)
    ensures Step(c, d) == Some(r)
  {
  }

  /** In an in-range replay, the diff after any prefix is in range of the cursor that prefix leaves. */
  lemma RunDiffsNextInRange(c: Cursor, ds: seq<Diff>, k: nat, at: Cursor)
    requires k < |ds|
    requires RunDiffs(c, ds).Some?
    requires RunDiffs(c, ds[..k]) == Some(at)
    ensures InRange(at, ds[k])
  {
    RunDiffsPrefix(c, ds, k + 1);
    assert ds[..k + 1][..k] == ds[..k];
  }

  /** Replaying one more diff of a list is one more step. */
  lemma RunDiffsExtend(c: Cursor, ds: seq<Diff>, k: nat, at: Cursor, next: Cursor)
    requires k < |ds|
    requires RunDiffs(c, ds[..k]) == Some(at)
    requires Step(at, ds[k]) == Some(next)
    ensures RunDiffs(c, ds[..k + 1]) == Some(next)
  {
    assert ds[..k + 1][..k] == ds[..k];
  }

  /** In an in-range replay, the record after any prefix replays in range from its start1. */
  lemma ApplyNextInRange(content: Units, ps: seq<Patch>, k: nat, mid: Units)
    requires k < |ps|
    requires Apply(content, ps).Some?
    requires Apply(content, ps[..k]) == Some(mid)
    ensures RunDiffs(Cursor(mid, ps[k].start1), ps[k].diffs).Some?
  {
    ApplyPrefix(content, ps, k + 1);
    assert ps[..k + 1][..k] == ps[..k];
  }

  /** Replaying one more record of a list replays its diffs from its own start1. */
  lemma ApplyExtend(content: Units, ps: seq<Patch>, k: nat, mid: Units, last: Cursor)
    requires k < |ps|
    requires Apply(content, ps[..k]) == Some(mid)
    requires RunDiffs(Cursor(mid, ps[k].start1), ps[k].diffs) == Some(last)
    ensures Apply(content, ps[..k + 1]) == Some(last.content)
  {
    assert ps[..k + 1][..k] == ps[..k];
  }

  /** Every prefix of a diff list that replays in range also replays in range. */
  lemma {:induction false} RunDiffsPrefix(c: Cursor, ds: seq<Diff>, k: nat)
    requires k <= |ds|
    requires RunDiffs(c, ds).Some?
    ensures RunDiffs(c, ds[..k]).Some?
    decreases |ds|
  {
    if k == |ds| {
      assert ds[..k] == ds;
    } else {
      assert ds[..|ds| - 1][..k] == ds[..k];
      RunDiffsPrefix(c, ds[..|ds| - 1], k);
    }
  }

  /** Every prefix of a patch list that replays in range also replays in range. */
  lemma {:induction false} ApplyPrefix(content: Units, ps: seq<Patch>, k: nat)
    requires k <= |ps|
    requires Apply(content, ps).Some?
    ensures Apply(content, ps[..k]).Some?
    decreases |ps|
  {
    if k == |ps| {
      assert ps[..k] == ps;
    } else {
      assert ps[..|ps| - 1][..k] == ps[..k];
      ApplyPrefix(content, ps[..|ps| - 1], k);
    }
  }

  /** Replaying ps and then qs is replaying the concatenated list: records apply strictly in order. */
  lemma {:induction false} ApplyConcat(content: Units, ps: seq<Patch>, qs: seq<Patch>)
    ensures Apply(content, ps + qs) ==
              match Apply(content, ps)
              case None => None
              case Some(mid) => Apply(mid, qs)
    decreases |qs|
  {
    if qs == [] {
      assert ps + qs == ps;
    } else {
      var all := ps + qs;
      assert all[..|all| - 1] == ps + qs[..|qs| - 1];
      assert all[|all| - 1] == qs[|qs| - 1];
      ApplyConcat(content, ps, qs[..|qs| - 1]);
    }
  }

  /** Records that start at or after k never change the working copy before k. */
  lemma {:induction false} ApplyKeepsPrefix(content: Units, ps: seq<Patch>, k: nat)
    requires k <= |content|
    requires forall i :: 0 <= i < |ps| ==> k <= ps[i].start1
    requires Apply(content, ps).Some?
    ensures k <= |Apply(content, ps).value|
    ensures Apply(content, ps).value[..k] == content[..k]
    decreases |ps|
  {
    if ps != [] {
      var init := ps[..|ps| - 1];
      var last := ps[|ps| - 1];
      ApplyKeepsPrefix(content, init, k);
      var mid := Apply(content, init).value;
      var c := RunDiffs(Cursor(mid, last.start1), last.diffs).value;
      assert Apply(content, ps).value == c.content;
      if last.start1 <= |mid| {
        RunDiffsKeepsPrefix(Cursor(mid, last.start1), last.diffs);
        assert c.content[..last.start1] == mid[..last.start1];
        assert c.content[..k] == c.content[..last.start1][..k];
        assert mid[..k] == mid[..last.start1][..k];
      } else {
        // Only EQUAL diffs can be replayed from beyond the end, and they change nothing.
        RunDiffsBeyondEnd(Cursor(mid, last.start1), last.diffs);
      }
    }
  }

  /** A record replayed from cursor c never changes the working copy before c. */
  lemma {:induction false} RunDiffsKeepsPrefix(c: Cursor, ds: seq<Diff>)
    requires c.index <= |c.content|
    requires RunDiffs(c, ds).Some?
    ensures c.index <= |RunDiffs(c, ds).value.content|
    ensures RunDiffs(c, ds).value.content[..c.index] == c.content[..c.index]
    decreases |ds|
  {
    if ds != [] {
      var init := ds[..|ds| - 1];
      RunDiffsKeepsPrefix(c, init);
      var mid := RunDiffs(c, init).value;
      StepEffect(mid, ds[|ds| - 1]);
      var r := RunDiffs(c, ds).value;
      assert r == Step(mid, ds[|ds| - 1]).value;
      if ds[|ds| - 1].operation != Equal {
        assert r.content[..mid.index] == mid.content[..mid.index];
        assert r.content[..c.index] == r.content[..mid.index][..c.index];
        assert mid.content[..c.index] == mid.content[..mid.index][..c.index];
      }
    }
  }

  /** From a cursor beyond the end of the working copy, an in-range replay changes nothing. */
  lemma {:induction false} RunDiffsBeyondEnd(c: Cursor, ds: seq<Diff>)
    requires |c.content| < c.index
    requires RunDiffs(c, ds).Some?
    ensures RunDiffs(c, ds).value.content == c.content
    decreases |ds|
  {
    if ds != [] {
      RunDiffsPrefix(c, ds, |ds| - 1);
      RunDiffsBeyondEnd(c, ds[..|ds| - 1]);
    }
  }

  /** Two diffs that differ at most in the text of a DELETE of the same length. */
  predicate SameUpToDeletedText(d: Diff, e: Diff)
  {
    d.operation == e.operation && |d.text| == |e.text| && (d.operation != Delete ==> d.text == e.text)
  }

  predicate SameDiffsUpToDeletedText(ds: seq<Diff>, es: seq<Diff>)
  {
    |ds| == |es| && forall i :: 0 <= i < |ds| ==> SameUpToDeletedText(ds[i], es[i])
  }

  predicate SamePatchesUpToDeletedText(ps: seq<Patch>, qs: seq<Patch>)
  {
    |ps| == |qs| &&
    forall i :: 0 <= i < |ps| ==>
      ps[i].start1 == qs[i].start1 && SameDiffsUpToDeletedText(ps[i].diffs, qs[i].diffs)
  }

  /** A DELETE removes by length only: the text it carries is never compared with the working copy. */
  lemma {:induction false} RunDiffsIgnoresDeletedText(c: Cursor, ds: seq<Diff>, es: seq<Diff>)
    requires SameDiffsUpToDeletedText(ds, es)
    ensures RunDiffs(c, ds) == RunDiffs(c, es)
    decreases |ds|
  {
    if ds != [] {
      var n := |ds| - 1;
      assert SameDiffsUpToDeletedText(ds[..n], es[..n]) by {
        forall i | 0 <= i < n ensures SameUpToDeletedText(ds[..n][i], es[..n][i]) {
          assert SameUpToDeletedText(ds[i], es[i]);
        }
      }
      RunDiffsIgnoresDeletedText(c, ds[..n], es[..n]);
      assert SameUpToDeletedText(ds[n], es[n]);
    }
  }

  /** Replaying a whole patch list does not depend on the text of its DELETE diffs. */
  lemma {:induction false} ApplyIgnoresDeletedText(content: Units, ps: seq<Patch>, qs: seq<Patch>)
    requires SamePatchesUpToDeletedText(ps, qs)
    ensures Apply(content, ps) == Apply(content, qs)
    decreases |ps|
  {
    if ps != [] {
      var n := |ps| - 1;
      assert SamePatchesUpToDeletedText(ps[..n], qs[..n]) by {
        forall i | 0 <= i < n
          ensures ps[..n][i].start1 == qs[..n][i].start1
          ensures SameDiffsUpToDeletedText(ps[..n][i].diffs, qs[..n][i].diffs)
        {
          assert ps[..n][i] == ps[i] && qs[..n][i] == qs[i];
        }
      }
      ApplyIgnoresDeletedText(content, ps[..n], qs[..n]);
      match Apply(content, ps[..n]) {
        case None =>
        case Some(mid) =>
          RunDiffsIgnoresDeletedText(Cursor(mid, ps[n].start1), ps[n].diffs, qs[n].diffs);
      }
    }
  }

  /**
   * The replay loop of handleFiles: for every record in order the cursor
   * (targetIndex) is reset to start1, and each of its diffs updates the
   * working copy and the cursor in place.
   */
  method ReplayPatches(patches: seq<Patch>, initial: Units) returns (content: Units)
    requires Apply(initial, patches).Some?
    ensures Apply(initial, patches) == Some(content)
    ensures |content| == |initial| + PatchTotal(patches, Insert) - PatchTotal(patches, Delete)
  {
    content := initial;
    for p := 0 to |patches|
      invariant Apply(initial, patches[..p]) == Some(content)
    {
      var patch := patches[p];
      ghost var before := content;
      ApplyNextInRange(initial, patches, p, before);
      var targetIndex: nat := patch.start1;
      for d := 0 to |patch.diffs|
        invariant RunDiffs(Cursor(before, patch.start1), patch.diffs[..d]) == Some(Cursor(content, targetIndex))
      {
        var diff := patch.diffs[d];
        ghost var at := Cursor(content, targetIndex);
        RunDiffsNextInRange(Cursor(before, patch.start1), patch.diffs, d, at);
        var count := |diff.text|;
        match diff.operation {
          case Delete =>
            content := content[..targetIndex] + content[targetIndex + count..];
          case Insert =>
            content := content[..targetIndex] + diff.text + content[targetIndex..];
            targetIndex := targetIndex + count;
          case Equal =>
            targetIndex := targetIndex + count;
        }
        StepIs(at, diff, Cursor(content, targetIndex));
        RunDiffsExtend(Cursor(before, patch.start1), patch.diffs, d, at, Cursor(content, targetIndex));
      }
      assert patch.diffs[..|patch.diffs|] == patch.diffs;
      ApplyExtend(initial, patches, p, before, Cursor(content, targetIndex));
    }
    assert patches[..|patches|] == patches;
  }
}
