/**
 * One reconstruction stage and the pipeline that runs the stages backwards.
 *
 * A stage exports the current image (the outcome is a parameter), asks the
 * classifier which operation the stage applied, records the code and
 * replaces the current image by the result of the inverse operation. The
 * pipeline starts from the distorted image I_D and runs stage n - 1 down to
 * stage 0, stopping at the first stage that fails.
 *
 * `Run` is the pipeline on values, over any stage function; its properties
 * are lemmas that assume only what they need of the stage. `Stages` is the
 * stage of the source; `IsSourceStage` says that a stage function agrees
 * with it, `StagesIsSourceStage` that `Stages` does, and
 * `SourceStageIsSound` that such a stage meets those assumptions.
 * `ReconstruirImagen` is proved to compute `Run` over it.
 */
module Reconstruccion {
  import opened Wrappers
  import opened Operaciones
  import opened Validacion
  import opened Clasificador
  import opened Procesamiento

  /** What a successful stage yields: the code recorded and the image the stage is undone to. */
  datatype Undone = Undone(code: int, image: Bytes)

  /** procesarEtapa passes I_M to aplicarOperacionInversa for code 1 and a null pointer for the rotations. */
  function ImFor(code: int, im: Bytes): (r: Option<Bytes>)
  {
    if code == 1 then Some(im) else None
  }

  /** The rotations do not look at I_M, so passing null for them changes nothing. */
  lemma ImForIsIrrelevant(code: int, cur: Bytes, im: Bytes)
    requires Decode(code).Some?
    requires |im| == |cur|
    ensures Executable(code)
    ensures InverseImage(code, cur, ImFor(code, im)) == InverseImage(code, cur, Some(im))
  {
    DispatchAgreesWithDecode(code);
  }

  /**
   * One stage on values: None when the export of the current image fails or
   * no candidate validates. A successful stage records a classifier code
   * and an image of the same size that passes the stage's own check.
   */
  function StageStep(cur: Bytes, im: Bytes, c: MaskCheck, exported: bool): (r: Option<Undone>)
    requires |im| == |cur|
    requires c.SizedFor(|cur|)
    ensures r.None? <==> !exported || Classify(cur, Some(im), c) == -1
    ensures r.Some? ==> r.value.code == Classify(cur, Some(im), c) && Decode(r.value.code).Some?
    ensures r.Some? ==> |r.value.image| == |cur| && MaskSumValid(Some(r.value.image), c)
  {
    if !exported then None
    else
      var code := Classify(cur, Some(im), c);
      if code == -1 then None
      else
        ClassifyDecodes(cur, Some(im), c);
        ClassifySound(cur, Some(im), c);
        ImForIsIrrelevant(code, cur, im);
        Some(Undone(code, InverseImage(code, cur, ImFor(code, im)).value))
  }

  /** A stage whose export succeeded and whose code is not -1 records that code and applies its inverse. */
  lemma StageStepTaken(cur: Bytes, im: Bytes, c: MaskCheck, code: int)
    requires |im| == |cur|
    requires c.SizedFor(|cur|)
    requires code == Classify(cur, Some(im), c) && code != -1
    ensures Executable(code)
    ensures InverseImage(code, cur, ImFor(code, im)).Some?
    ensures StageStep(cur, im, c, true) == Some(Undone(code, InverseImage(code, cur, ImFor(code, im)).value))
  {
    ClassifyDecodes(cur, Some(im), c);
    ClassifySound(cur, Some(im), c);
    ImForIsIrrelevant(code, cur, im);
  }

  // ---------------------------------------------------------------------------
  // The pipeline over any stage

  /** A stage: from the current image and the stage index, the outcome of that stage. */
  type StageFn = (Bytes, nat) -> Option<Undone>

  /** Where the pipeline stopped (None when every stage succeeded), the current image and the recorded codes. */
  datatype RunState = RunState(failedAt: Option<nat>, image: Bytes, operations: seq<int>)

  /**
   * The stages k - 1 down to 0 run from image `cur` with codes `ops` recorded
   * so far. A run stops at a stage below k, and when it stops at the first
   * stage it tried, that stage failed on `cur` and nothing was recorded.
   */
  function Run(k: nat, cur: Bytes, ops: seq<int>, stage: StageFn): (r: RunState)
    requires k <= |ops|
    ensures |r.operations| == |ops|
    ensures r.failedAt.Some? ==> r.failedAt.value < k
    ensures r.failedAt.Some? && r.failedAt.value + 1 == k ==>
      stage(cur, k - 1).None? && r.image == cur && r.operations == ops
    decreases k
  {
    if k == 0 then RunState(None, cur, ops)
    else
      match stage(cur, k - 1)
      case None => RunState(Some(k - 1), cur, ops)
      case Some(u) => Run(k - 1, u.image, ops[k - 1 := u.code], stage)
  }

  /** A run whose first stage fails stops there, on the image it started from. */
  lemma RunStopsAt(k: nat, cur: Bytes, ops: seq<int>, stage: StageFn)
    requires 0 < k <= |ops|
    requires stage(cur, k - 1).None?
    ensures Run(k, cur, ops, stage) == RunState(Some(k - 1), cur, ops)
  {
  }

  /** A run whose first stage succeeds goes on from that stage's image with its code recorded. */
  lemma RunGoesOn(k: nat, cur: Bytes, ops: seq<int>, stage: StageFn, u: Undone)
    requires 0 < k <= |ops|
    requires stage(cur, k - 1) == Some(u)
    ensures Run(k, cur, ops, stage) == Run(k - 1, u.image, ops[k - 1 := u.code], stage)
  {
  }

  /** Every code a stage records is one the classifier can return. */
  ghost predicate RecordsCodes(stage: StageFn)
  {
    forall x, i :: stage(x, i).Some? ==> Decode(stage(x, i).value.code).Some?
  }

  /** Every image a stage yields satisfies `passes` for that stage. */
  ghost predicate YieldsPassing(stage: StageFn, passes: (Bytes, nat) -> bool)
  {
    forall x, i :: stage(x, i).Some? ==> passes(stage(x, i).value.image, i)
  }

  /**
   * Every stage run on an image of I_M's size is undone by the forward
   * operation its code names: it keeps the size, and the labelled operation
   * takes its image back to the one it started from.
   */
  ghost predicate UndoneBy(stage: StageFn, im: Bytes)
  {
    forall x, i :: |x| == |im| && stage(x, i).Some? ==>
      |stage(x, i).value.image| == |x| &&
      ForwardImage(Describe(stage(x, i).value.code), stage(x, i).value.image, im) == Some(x)
  }

  /** The stage 0 image replayed forward through stages 0..k-1 by the operations their labels name. */
  function Replay(ops: seq<int>, k: nat, x: Bytes, im: Bytes): (r: Option<Bytes>)
    requires k <= |ops|
    requires |im| == |x|
    ensures r.Some? ==> |r.value| == |x|
  {
    if k == 0 then Some(x)
    else
      match Replay(ops, k - 1, x, im)
      case None => None
      case Some(y) => ForwardImage(Describe(ops[k - 1]), y, im)
  }

  /** The lines of the final summary: the codes from the last stage to the first, then a trailing XOR. */
  function Summary(ops: seq<int>): (s: seq<Description>)
    ensures |s| == |ops| + 1
    ensures forall i :: 0 <= i < |ops| ==> s[i] == Describe(ops[|ops| - 1 - i])
    ensures s[|ops|] == XorWithIM
  {
    seq(|ops|, i requires 0 <= i < |ops| => Describe(ops[|ops| - 1 - i])) + [Describe(1)]
  }

  // ---------------------------------------------------------------------------
  // Properties of the pipeline

  /** The stages not yet run keep their recorded codes. */
  lemma {:induction false} RunKeepsLaterEntries(k: nat, cur: Bytes, ops: seq<int>, stage: StageFn)
    requires k <= |ops|
    ensures forall i :: k <= i < |ops| ==> Run(k, cur, ops, stage).operations[i] == ops[i]
    decreases k
  {
    if k > 0 {
      match stage(cur, k - 1)
      case None =>
      case Some(u) => RunKeepsLaterEntries(k - 1, u.image, ops[k - 1 := u.code], stage);
    }
  }

  /**
   * A run that stops at stage f failed exactly there, on the image it
   * reached; stages above f recorded classifier codes and stages up to f kept
   * what they had.
   */
  lemma {:induction false} RunHalts(k: nat, cur: Bytes, ops: seq<int>, stage: StageFn)
    requires k <= |ops|
    requires RecordsCodes(stage)
    ensures var r := Run(k, cur, ops, stage);
      r.failedAt.Some? ==>
        stage(r.image, r.failedAt.value).None? &&
        (forall i :: 0 <= i <= r.failedAt.value ==> r.operations[i] == ops[i]) &&
        (forall i :: r.failedAt.value < i < k ==> Decode(r.operations[i]).Some?)
    decreases k
  {
    if k > 0 {
      match stage(cur, k - 1)
      case None =>
      case Some(u) =>
        var ops' := ops[k - 1 := u.code];
        assert Decode(u.code).Some?;
        RunHalts(k - 1, u.image, ops', stage);
        RunKeepsLaterEntries(k - 1, u.image, ops', stage);
    }
  }

  /** A run without failure records a classifier code for every stage it ran. */
  lemma {:induction false} RunRecordsEveryStage(k: nat, cur: Bytes, ops: seq<int>, stage: StageFn)
    requires k <= |ops|
    requires RecordsCodes(stage)
    ensures var r := Run(k, cur, ops, stage);
      r.failedAt.None? ==> forall i :: 0 <= i < k ==> Decode(r.operations[i]).Some?
    decreases k
  {
    if k > 0 {
      match stage(cur, k - 1)
      case None =>
      case Some(u) =>
        var ops' := ops[k - 1 := u.code];
        assert Decode(u.code).Some?;
        RunRecordsEveryStage(k - 1, u.image, ops', stage);
        RunKeepsLaterEntries(k - 1, u.image, ops', stage);
    }
  }

  /**
   * The image a run ends with is the one the last stage that succeeded
   * yielded (stage 0 when the whole run succeeds), so it satisfies what that
   * stage promises of its images.
   */
  lemma {:induction false} RunEndsOnPassingImage(k: nat, cur: Bytes, ops: seq<int>, stage: StageFn, passes: (Bytes, nat) -> bool)
    requires k <= |ops|
    requires YieldsPassing(stage, passes)
    ensures var r := Run(k, cur, ops, stage);
      var last := if r.failedAt.None? then 0 else r.failedAt.value + 1;
      last < k ==> passes(r.image, last)
    decreases k
  {
    if k > 0 {
      match stage(cur, k - 1)
      case None =>
      case Some(u) =>
        var r := Run(k - 1, u.image, ops[k - 1 := u.code], stage);
        RunEndsOnPassingImage(k - 1, u.image, ops[k - 1 := u.code], stage, passes);
        assert passes(u.image, k - 1);
        if k == 1 {
          assert r.image == u.image;
        }
    }
  }

  /**
   * A run that succeeds is undone by its own summary: replaying, from stage 0
   * up, the forward operations the labels name turns the final image back
   * into the image the run started from.
   */
  lemma {:induction false} RunReplaysToStart(k: nat, cur: Bytes, ops: seq<int>, stage: StageFn, im: Bytes)
    requires k <= |ops|
    requires |cur| == |im|
    requires UndoneBy(stage, im)
    ensures var r := Run(k, cur, ops, stage);
      r.failedAt.None? ==> |r.image| == |im| && Replay(r.operations, k, r.image, im) == Some(cur)
    decreases k
  {
    if k > 0 {
      match stage(cur, k - 1)
      case None =>
      case Some(u) =>
        var ops' := ops[k - 1 := u.code];
        var r := Run(k - 1, u.image, ops', stage);
        assert |u.image| == |cur| && ForwardImage(Describe(u.code), u.image, im) == Some(cur);
        RunReplaysToStart(k - 1, u.image, ops', stage, im);
        RunKeepsLaterEntries(k - 1, u.image, ops', stage);
        if r.failedAt.None? {
          assert r.operations[k - 1] == u.code;
        }
    }
  }

  // ---------------------------------------------------------------------------
  // The stage of the source

  /**
   * Stage i of the source run on image x: StageStep with that stage's check
   * and export outcome; None for an index past the stage data or an image
   * the checks do not fit (neither arises in ReconstruirImagen).
   */
  function StageOutcome(x: Bytes, i: nat, im: Bytes, checks: seq<MaskCheck>, exports: seq<bool>): (r: Option<Undone>)
    ensures r.Some? ==> i < |checks| && i < |exports| && |im| == |x| && checks[i].SizedFor(|x|)
  {
    if i < |checks| && i < |exports| && |im| == |x| && checks[i].SizedFor(|x|)
    then StageStep(x, im, checks[i], exports[i])
    else None
  }

  function Stages(im: Bytes, checks: seq<MaskCheck>, exports: seq<bool>): StageFn
  {
    (x: Bytes, i: nat) => StageOutcome(x, i, im, checks, exports)
  }

  /**
   * `stage` is the source's stage for I_M, the checks and the export
   * outcomes, stated point by point: a proof meets the definition of a stage
   * only where it names that stage's outcome.
   */
  ghost predicate IsSourceStage(stage: StageFn, im: Bytes, checks: seq<MaskCheck>, exports: seq<bool>)
  {
    forall x, i {:trigger StageOutcome(x, i, im, checks, exports)} ::
      stage(x, i) == StageOutcome(x, i, im, checks, exports)
  }

  lemma StagesIsSourceStage(im: Bytes, checks: seq<MaskCheck>, exports: seq<bool>)
    ensures IsSourceStage(Stages(im, checks, exports), im, checks, exports)
  {
  }

  /** On images of I_M's size that check c fits, stage i of `stage` is StageStep with c and `exported`. */
  ghost predicate IsStageAt(stage: StageFn, i: nat, im: Bytes, c: MaskCheck, exported: bool)
  {
    forall x {:trigger StageStep(x, im, c, exported)} :: |x| == |im| && c.SizedFor(|x|) ==>
      stage(x, i) == StageStep(x, im, c, exported)
  }

  /** Where the stage data fit, the source's stage is StageStep with that stage's check and export outcome. */
  lemma SourceStageAt(stage: StageFn, im: Bytes, checks: seq<MaskCheck>, exports: seq<bool>, i: nat)
    requires IsSourceStage(stage, im, checks, exports)
    requires i < |checks| && i < |exports|
    ensures IsStageAt(stage, i, im, checks[i], exports[i])
  {
    forall x | |x| == |im| && checks[i].SizedFor(|x|)
      ensures stage(x, i) == StageStep(x, im, checks[i], exports[i])
    {
      assert stage(x, i) == StageOutcome(x, i, im, checks, exports);
    }
  }

  /** Image x passes the check of stage i. */
  predicate StagePasses(checks: seq<MaskCheck>, x: Bytes, i: nat)
  {
    i < |checks| && checks[i].SizedFor(|x|) && MaskSumValid(Some(x), checks[i])
  }

  /** The source's stage records classifier codes, yields images that pass its check, and is undone by its label. */
  lemma SourceStageIsSound(stage: StageFn, im: Bytes, checks: seq<MaskCheck>, exports: seq<bool>)
    requires IsSourceStage(stage, im, checks, exports)
    ensures RecordsCodes(stage)
    ensures YieldsPassing(stage, (x: Bytes, i: nat) => StagePasses(checks, x, i))
    ensures UndoneBy(stage, im)
  {
    forall x, i | stage(x, i).Some?
      ensures Decode(stage(x, i).value.code).Some?
      ensures StagePasses(checks, stage(x, i).value.image, i)
      ensures |x| == |im| ==>
        |stage(x, i).value.image| == |x| &&
        ForwardImage(Describe(stage(x, i).value.code), stage(x, i).value.image, im) == Some(x)
    {
      assert stage(x, i) == StageOutcome(x, i, im, checks, exports);
      var u := stage(x, i).value;
      ImForIsIrrelevant(u.code, x, im);
      ForwardUndoesInverse(u.code, x, im);
    }
  }

  /**
   * The reconstruction from I_D with all codes 0 over n stages: a success
   * records a classifier code at every stage, ends on an image that passes
   * stage 0's check, and is taken back to I_D by replaying its labels; a
   * failure names the stage that failed on the image reached. Whenever a
   * stage succeeded, the final image passes the check of the last one.
   */
  lemma ReconstructionIsSound(n: nat, id: Bytes, im: Bytes, checks: seq<MaskCheck>, exports: seq<bool>, stage: StageFn)
    requires |id| == |im|
    requires IsSourceStage(stage, im, checks, exports)
    ensures var r := Run(n, id, seq(n, _ => 0), stage);
      var last := if r.failedAt.None? then 0 else r.failedAt.value + 1;
      (r.failedAt.None? ==>
        (forall i :: 0 <= i < n ==> Decode(r.operations[i]).Some?) &&
        |r.image| == |im| && Replay(r.operations, n, r.image, im) == Some(id)) &&
      (r.failedAt.Some? ==> StageOutcome(r.image, r.failedAt.value, im, checks, exports).None?) &&
      (last < n ==> StagePasses(checks, r.image, last))
  {
    var ops: seq<int> := seq(n, _ => 0);
    SourceStageIsSound(stage, im, checks, exports);
    RunRecordsEveryStage(n, id, ops, stage);
    RunHalts(n, id, ops, stage);
    RunEndsOnPassingImage(n, id, ops, stage, (x: Bytes, i: nat) => StagePasses(checks, x, i));
    RunReplaysToStart(n, id, ops, stage, im);
  }

  // ---------------------------------------------------------------------------
  // The stage and the pipeline as the C++ runs them

  /** The checks of all stages, read from the mask image and each stage's expected data. */
  function StageChecks(m: array<bv8>, maskingData: seq<array<uint32>>, seeds: seq<nat>, maskWidth: nat, maskHeight: nat)
    : (cs: seq<MaskCheck>)
    requires |maskingData| == |seeds|
    reads m, set i | 0 <= i < |maskingData| :: maskingData[i]
    ensures |cs| == |seeds|
    ensures forall i :: 0 <= i < |cs| ==> cs[i] == CheckOf(m, maskingData[i], seeds[i], maskWidth, maskHeight)
  {
    seq(|seeds|, i requires 0 <= i < |seeds| reads m, set j | 0 <= j < |maskingData| :: maskingData[j] =>
      CheckOf(m, maskingData[i], seeds[i], maskWidth, maskHeight))
  }

  /**
   * procesarEtapa (main.cpp:270-323). `exported` is the outcome of the export
   * of the current image that opens the stage, and `stage` is a stage
   * function that is StageStep at stage `etapa`: the method computes that
   * stage on the current image. The image is replaced only on success, and
   * only `operations[etapa]` is written. The source's check that the inverse
   * image is not null is unreachable: a code the classifier returns is
   * always applied successfully.
   */
  method ProcesarEtapa(etapa: nat, currentImg: array<bv8>, im: array<bv8>, m: array<bv8>,
                       maskingData: seq<array<uint32>>, seeds: seq<nat>,
                       width: nat, height: nat, maskWidth: nat, maskHeight: nat,
                       operations: array<int>, exported: bool, ghost stage: StageFn)
    returns (ok: bool, nextImg: array<bv8>)
    requires etapa < |maskingData| && etapa < |seeds| && etapa < operations.Length
    requires currentImg.Length == width * height * 3 && im.Length == width * height * 3
    requires currentImg as object != operations as object && im as object != operations as object
    requires CheckOf(m, maskingData[etapa], seeds[etapa], maskWidth, maskHeight).SizedFor(width * height * 3)
    requires IsStageAt(stage, etapa, im[..], CheckOf(m, maskingData[etapa], seeds[etapa], maskWidth, maskHeight), exported)
    modifies operations
    ensures var step := stage(old(currentImg[..]), etapa);
      (ok <==> step.Some?) &&
      (!ok ==> nextImg == currentImg && operations[..] == old(operations[..])) &&
      (ok ==> fresh(nextImg) && nextImg.Length == currentImg.Length && nextImg[..] == step.value.image &&
              operations[..] == old(operations[..])[etapa := step.value.code])
  {
    var total := width * height * 3;
    ghost var cur := currentImg[..];
    ghost var c := CheckOf(m, maskingData[etapa], seeds[etapa], maskWidth, maskHeight);
    assert currentImg[..total] == cur;
    assert im[..total] == im[..];
    assert stage(cur, etapa) == StageStep(cur, im[..], c, exported);
    if !exported {
      return false, currentImg;
    }
    var operacion := DeterminarOperacionInversa(currentImg, im, m, maskingData[etapa], seeds[etapa],
                                                width, height, maskWidth, maskHeight);
    if operacion == -1 {
      return false, currentImg;
    }
    StageStepTaken(cur, im[..], c, operacion);
    ghost var undone := InverseImage(operacion, cur, ImFor(operacion, im[..]));
    operations[etapa] := operacion;
    var nueva: array?<bv8>;
    if operacion == 1 {
      nueva := AplicarOperacionInversa(currentImg, im, operacion, width, height);
      assert Prefix(im, total) == ImFor(operacion, im[..]);
    } else {
      nueva := AplicarOperacionInversa(currentImg, null, operacion, width, height);
      assert Prefix(null, total) == ImFor(operacion, im[..]);
    }
    assert currentImg[..total] == cur;
    assert View(nueva) == undone;
    assert nueva != null;
    return true, nueva;
  }

  /**
   * The stage loop and the summary of reconstruirImagen (main.cpp:362-412).
   * The loaded images and stage data are parameters, and so are the outcomes
   * of the per-stage exports (`exports`) and of the final export. `stage` is
   * the source's stage for these data (`Stages` is one), and the result is
   * the run of the stages from I_D with every code 0. I_D is
   * never overwritten: the final image is I_D itself (no stage ran) or a
   * fresh array. The summary is produced only when every stage and the final
   * export succeed.
   */
  method ReconstruirImagen(id: array<bv8>, im: array<bv8>, m: array<bv8>,
                           maskingData: seq<array<uint32>>, seeds: seq<nat>,
                           width: nat, height: nat, maskWidth: nat, maskHeight: nat,
                           exports: seq<bool>, finalExported: bool, ghost stage: StageFn)
    returns (success: bool, finalImg: array<bv8>, summary: Option<seq<Description>>)
    requires |maskingData| == |seeds| == |exports|
    requires id.Length == width * height * 3 && im.Length == width * height * 3
    requires forall i :: 0 <= i < |maskingData| ==>
      CheckOf(m, maskingData[i], seeds[i], maskWidth, maskHeight).SizedFor(width * height * 3)
    requires IsSourceStage(stage, im[..], StageChecks(m, maskingData, seeds, maskWidth, maskHeight), exports)
    ensures finalImg == id || fresh(finalImg)
    ensures var r := Run(|seeds|, id[..], seq(|seeds|, _ => 0), stage);
      (success <==> r.failedAt.None?) && finalImg[..] == r.image &&
      summary == (if success && finalExported then Some(Summary(r.operations)) else None)
  {
    var n := |seeds|;
    ghost var checks := StageChecks(m, maskingData, seeds, maskWidth, maskHeight);
    ghost var start := Run(n, id[..], seq(n, _ => 0), stage);
    var currentImg := id;
    var operations := new int[n](_ => 0);
    ghost var img, ops := id[..], seq(n, _ => 0);
    assert operations[..] == ops;
    success := true;
    var etapa: int := n - 1;
    while etapa >= 0
      invariant -1 <= etapa < n
      invariant currentImg.Length == width * height * 3
      invariant currentImg == id || fresh(currentImg)
      invariant fresh(operations) && operations.Length == n
      invariant currentImg as object != operations as object
      invariant currentImg[..] == img && operations[..] == ops
      invariant start == Run(etapa + 1, img, ops, stage)
      decreases etapa
    {
      assert checks[etapa] == CheckOf(m, maskingData[etapa], seeds[etapa], maskWidth, maskHeight);
      SourceStageAt(stage, im[..], checks, exports, etapa);
      var ok, next := ProcesarEtapa(etapa, currentImg, im, m, maskingData, seeds,
                                    width, height, maskWidth, maskHeight, operations, exports[etapa], stage);
      if !ok {
        RunStopsAt(etapa + 1, img, ops, stage);
        return false, currentImg, None;
      }
      RunGoesOn(etapa + 1, img, ops, stage, stage(img, etapa).value);
      currentImg := next;
      img, ops := next[..], operations[..];
      etapa := etapa - 1;
    }
    assert start == RunState(None, img, ops);
    finalImg := currentImg;
    summary := if finalExported then Some(Summary(operations[..])) else None;
  }
}
