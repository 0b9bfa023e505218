/** The decision logic of the `generate` and `apply` commands: which delta
    and which digests are used, in which order the checks run, and when the
    result is written. Reading and writing files and all reporting are left
    out; the steps that touch the engine, the hasher or the disk are
    recorded in a trace so that their order can be stated. */
module Pipeline {
  import opened Encoding
  import opened Errors
  import opened Digests
  import opened Delta
  import opened Format
  import opened Preview
  import opened Ui

  /** The container `generate` builds: the forward delta, both digests when
      `checksum` is set, and the reverse delta when `reverse` is set; never
      metadata. Either diff failing fails the whole command. */
  function GenerateContainer(e: Engine, base: seq<Byte>, patched: seq<Byte>, checksum: bool, reverse: bool)
    : (r: Result<PatchData>)
    ensures r.Ok? <==> e.diff(base, patched).Some? && (reverse ==> e.diff(patched, base).Some?)
    ensures r.Err? ==> r.error == DiffFailed
    ensures r.Ok? ==>
              && r.value.forwardPatch == e.diff(base, patched).value
              && r.value.baseChecksum == (if checksum then Some(Hash(e.hasher, base)) else None)
              && r.value.outputChecksum == (if checksum then Some(Hash(e.hasher, patched)) else None)
              && r.value.reversePatch == (if reverse then Some(e.diff(patched, base).value) else None)
              && r.value.metadata.None?
              && Encodable(r.value)
  {
    var forward :- Create(e, base, patched);
    var p := New(forward);
    var p := if checksum then WithChecksums(p, Hash(e.hasher, base), Hash(e.hasher, patched)) else p;
    if reverse then
      var backward :- Create(e, patched, base);
      Ok(WithReverse(p, backward))
    else Ok(p)
  }

  /** The bytes `generate` writes. */
  function Generate(e: Engine, base: seq<Byte>, patched: seq<Byte>, checksum: bool, reverse: bool)
    : (r: Result<seq<Byte>>)
    ensures r.Ok? <==> GenerateContainer(e, base, patched, checksum, reverse).Ok?
    ensures r.Ok? ==> |r.value| >= HEADER_SIZE && r.value[..8] == MAGIC_V2
  {
    var p :- GenerateContainer(e, base, patched, checksum, reverse);
    Ok(Serialize(p))
  }

  /** What `generate` writes decodes to the container it built. */
  lemma GenerateDecodes(e: Engine, base: seq<Byte>, patched: seq<Byte>, checksum: bool, reverse: bool)
    requires Generate(e, base, patched, checksum, reverse).Ok?
    ensures Deserialize(Generate(e, base, patched, checksum, reverse).value)
            == GenerateContainer(e, base, patched, checksum, reverse)
  {
    RoundTrip(GenerateContainer(e, base, patched, checksum, reverse).value);
  }

  datatype ApplyConfig = ApplyConfig(level: Level, dryRun: bool, reverse: bool, verify: bool)

  /** The externally visible steps of one `apply`, in order. */
  datatype Step =
    | VerifyInput
    | RunPatch
    | VerifyOutput
    | ShowPreview(changes: seq<ByteChange>)
    | Write(output: seq<Byte>)

  datatype ApplyRun = ApplyRun(steps: seq<Step>, outcome: Result<seq<Byte>>)

  /** The delta to run, the digest its input must have, and the digest its
      output must have. */
  datatype Selection = Selection(delta: seq<Byte>, inputHash: Option<Digest>, outputHash: Option<Digest>)

  /** Forward uses the forward delta with the digests in their stored roles;
      reverse uses the reverse delta with the roles swapped, and fails when
      the container has none. */
  function Select(p: PatchData, reverse: bool): (r: Result<Selection>)
    ensures r.Err? <==> reverse && p.reversePatch.None?
    ensures r.Err? ==> r.error == MissingReversePatch
    ensures r.Ok? && !reverse ==> r.value == Selection(p.forwardPatch, p.baseChecksum, p.outputChecksum)
    ensures r.Ok? && reverse ==> r.value == Selection(p.reversePatch.value, p.outputChecksum, p.baseChecksum)
  {
    if reverse then
      match p.reversePatch
      case Some(backward) => Ok(Selection(backward, p.outputChecksum, p.baseChecksum))
      case None => Err(MissingReversePatch)
    else Ok(Selection(p.forwardPatch, p.baseChecksum, p.outputChecksum))
  }

  /** Whether a digest check runs: only when verification is on and the
      digest is stored. */
  predicate Checks(verify: bool, expected: Option<Digest>)
  {
    verify && expected.Some?
  }

  /** `run` preceded by `steps`. */
  function Then(steps: seq<Step>, run: ApplyRun): (r: ApplyRun)
    ensures r.outcome == run.outcome
  {
    ApplyRun(steps + run.steps, run.outcome)
  }

  /** The end of a successful run: the preview at the verbose level, then
      the write unless this is a dry run. */
  function Finish(cfg: ApplyConfig, base: seq<Byte>, result: seq<Byte>): ApplyRun
  {
    var preview := if cfg.level.Verbose? then [ShowPreview(FindChanges(base, result))] else [];
    var write := if cfg.dryRun then [] else [Write(result)];
    ApplyRun(preview + write, Ok(result))
  }

  /** Steps that only check digests or run the engine: nothing is shown and
      nothing is written. */
  predicate OnlyChecks(steps: seq<Step>)
  {
    forall k :: 0 <= k < |steps| ==> steps[k].VerifyInput? || steps[k].RunPatch? || steps[k].VerifyOutput?
  }

  lemma OnlyChecksAppend(a: seq<Step>, b: seq<Step>)
    ensures OnlyChecks(a) && OnlyChecks(b) ==> OnlyChecks(a + b)
  {
    if OnlyChecks(a) && OnlyChecks(b) {
      forall k | 0 <= k < |a + b|
        ensures (a + b)[k].VerifyInput? || (a + b)[k].RunPatch? || (a + b)[k].VerifyOutput?
      {
        if k >= |a| {
          assert (a + b)[k] == b[k - |a|];
        }
      }
    }
  }

  /** A digest check as `apply` makes it: skipped unless verification is
      on and the digest is stored, and otherwise `VerifyHash`. */
  function CheckDigest(h: Hasher, verify: bool, data: seq<Byte>, expected: Option<Digest>): (r: Result<()>)
    ensures r.Ok? <==> !Checks(verify, expected) || DigestOf(h, data, expected.value)
    ensures r.Err? ==> r == VerifyHash(h, data, expected.value)
  {
    if Checks(verify, expected) then VerifyHash(h, data, expected.value) else Ok(())
  }

  /** The check of the engine's result against the output digest. */
  function OutputStage(e: Engine, cfg: ApplyConfig, base: seq<Byte>, sel: Selection, result: seq<Byte>): (r: ApplyRun)
    ensures r.outcome.Err? ==> r.steps == [VerifyOutput]
  {
    match CheckDigest(e.hasher, cfg.verify, result, sel.outputHash)
    case Err(err) => ApplyRun([VerifyOutput], Err(err))
    case Ok(_) => Then(if Checks(cfg.verify, sel.outputHash) then [VerifyOutput] else [], Finish(cfg, base, result))
  }

  /** The engine run on the selected delta. */
  function RunStage(e: Engine, cfg: ApplyConfig, base: seq<Byte>, sel: Selection): (r: ApplyRun)
    ensures r.outcome.Err? ==> OnlyChecks(r.steps)
  {
    match ApplyPatch(e, base, sel.delta)
    case Err(err) => ApplyRun([RunPatch], Err(err))
    case Ok(result) =>
      var out := OutputStage(e, cfg, base, sel, result);
      OnlyChecksAppend([RunPatch], out.steps);
      Then([RunPatch], out)
  }

  /** The check of the input against the input digest, then the rest. */
  function ApplySelected(e: Engine, cfg: ApplyConfig, base: seq<Byte>, sel: Selection): (r: ApplyRun)
    ensures r.outcome.Err? ==> OnlyChecks(r.steps)
  {
    match CheckDigest(e.hasher, cfg.verify, base, sel.inputHash)
    case Err(err) => ApplyRun([VerifyInput], Err(err))
    case Ok(_) =>
      var checked: seq<Step> := if Checks(cfg.verify, sel.inputHash) then [VerifyInput] else [];
      var rest := RunStage(e, cfg, base, sel);
      OnlyChecksAppend(checked, rest.steps);
      Then(checked, rest)
  }

  /** One `apply` on a decoded container. A run that fails has only checked
      digests and run the engine: it never shows a preview and never writes;
      a missing reverse delta fails before any step. */
  function ApplyContainer(e: Engine, cfg: ApplyConfig, base: seq<Byte>, p: PatchData): (r: ApplyRun)
    ensures r.outcome.Err? ==> OnlyChecks(r.steps)
    ensures cfg.reverse && p.reversePatch.None? ==> r == ApplyRun([], Err(MissingReversePatch))
  {
    match Select(p, cfg.reverse)
    case Err(err) => ApplyRun([], Err(err))
    case Ok(sel) => ApplySelected(e, cfg, base, sel)
  }

  /** One `apply` on the bytes of a delta file: a file that does not decode
      fails before any step. */
  function ApplyFile(e: Engine, cfg: ApplyConfig, base: seq<Byte>, file: seq<Byte>): (r: ApplyRun)
    ensures Deserialize(file).Err? ==> r == ApplyRun([], Err(Deserialize(file).error))
    ensures Deserialize(file).Ok? ==> r == ApplyContainer(e, cfg, base, Deserialize(file).value)
  {
    match Deserialize(file)
    case Err(err) => ApplyRun([], Err(err))
    case Ok(p) => ApplyContainer(e, cfg, base, p)
  }

  /** Asking for the reverse direction of a container without a reverse
      delta fails before any check or engine call. */
  lemma MissingReverseFirst(e: Engine, cfg: ApplyConfig, base: seq<Byte>, p: PatchData)
    requires cfg.reverse && p.reversePatch.None?
    ensures ApplyContainer(e, cfg, base, p) == ApplyRun([], Err(MissingReversePatch))
  {
  }

  /** The container with the reverse delta in the forward slot and the two
      digests exchanged. */
  function Swapped(p: PatchData): PatchData
    requires p.reversePatch.Some?
  {
    PatchData(p.outputChecksum, p.baseChecksum, p.reversePatch.value, None, p.metadata)
  }

  /** Applying in reverse is applying forward the swapped container. */
  lemma ReverseIsSwappedForward(e: Engine, cfg: ApplyConfig, base: seq<Byte>, p: PatchData)
    requires cfg.reverse && p.reversePatch.Some?
    ensures ApplyContainer(e, cfg, base, p) == ApplyContainer(e, cfg.(reverse := false), base, Swapped(p))
  {
  }

  /** A stored input digest that does not match stops the run right after
      the check: the engine is never run and nothing is written. */
  lemma InputMismatchStops(e: Engine, cfg: ApplyConfig, base: seq<Byte>, p: PatchData)
    requires Select(p, cfg.reverse).Ok?
    requires var sel := Select(p, cfg.reverse).value;
             Checks(cfg.verify, sel.inputHash) && !DigestOf(e.hasher, base, sel.inputHash.value)
    ensures var sel := Select(p, cfg.reverse).value;
            ApplyContainer(e, cfg, base, p)
            == ApplyRun([VerifyInput], Err(ChecksumMismatch(HexEncode(sel.inputHash.value), HexEncode(Hash(e.hasher, base)))))
  {
  }

  /** A stored output digest that does not match the engine's result stops
      the run right after that check: the engine ran, and nothing is shown or
      written. */
  lemma OutputMismatchStops(e: Engine, cfg: ApplyConfig, base: seq<Byte>, p: PatchData)
    requires Select(p, cfg.reverse).Ok?
    requires var sel := Select(p, cfg.reverse).value;
             && (Checks(cfg.verify, sel.inputHash) ==> DigestOf(e.hasher, base, sel.inputHash.value))
             && ApplyPatch(e, base, sel.delta).Ok?
             && Checks(cfg.verify, sel.outputHash)
             && !DigestOf(e.hasher, ApplyPatch(e, base, sel.delta).value, sel.outputHash.value)
    ensures var sel := Select(p, cfg.reverse).value;
            var result := ApplyPatch(e, base, sel.delta).value;
            var run := ApplyContainer(e, cfg, base, p);
            && run.outcome == Err(ChecksumMismatch(HexEncode(sel.outputHash.value), HexEncode(Hash(e.hasher, result))))
            && run.steps == (if Checks(cfg.verify, sel.inputHash) then [VerifyInput] else []) + [RunPatch, VerifyOutput]
  {
    var sel := Select(p, cfg.reverse).value;
    var result := ApplyPatch(e, base, sel.delta).value;
    var out := OutputStage(e, cfg, base, sel, result);
    assert out == ApplyRun([VerifyOutput], Err(VerifyHash(e.hasher, result, sel.outputHash.value).error));
    assert RunStage(e, cfg, base, sel) == ApplyRun([RunPatch, VerifyOutput], out.outcome);
  }

  /** Without verification the stored digests have no effect at all. */
  lemma UnverifiedIgnoresDigests(e: Engine, cfg: ApplyConfig, base: seq<Byte>, p: PatchData)
    requires !cfg.verify
    ensures ApplyContainer(e, cfg, base, p)
            == ApplyContainer(e, cfg, base, p.(baseChecksum := None, outputChecksum := None))
    ensures VerifyInput !in ApplyContainer(e, cfg, base, p).steps
    ensures VerifyOutput !in ApplyContainer(e, cfg, base, p).steps
  {
  }

  /** `dry` is `wet` without its final write. */
  predicate WithoutWrite(wet: ApplyRun, dry: ApplyRun)
  {
    && dry.outcome == wet.outcome
    && (wet.outcome.Ok? ==> wet.steps == dry.steps + [Write(wet.outcome.value)])
    && (wet.outcome.Err? ==> wet.steps == dry.steps)
  }

  lemma ThenWithoutWrite(steps: seq<Step>, wet: ApplyRun, dry: ApplyRun)
    requires WithoutWrite(wet, dry)
    ensures WithoutWrite(Then(steps, wet), Then(steps, dry))
  {
    if wet.outcome.Ok? {
      assert steps + (dry.steps + [Write(wet.outcome.value)]) == (steps + dry.steps) + [Write(wet.outcome.value)];
    }
  }

  lemma OutputStageWithoutWrite(e: Engine, cfg: ApplyConfig, base: seq<Byte>, sel: Selection, result: seq<Byte>)
    ensures WithoutWrite(OutputStage(e, cfg.(dryRun := false), base, sel, result),
                         OutputStage(e, cfg.(dryRun := true), base, sel, result))
  {
    var wet := Finish(cfg.(dryRun := false), base, result);
    var dry := Finish(cfg.(dryRun := true), base, result);
    assert WithoutWrite(wet, dry);
    ThenWithoutWrite(if Checks(cfg.verify, sel.outputHash) then [VerifyOutput] else [], wet, dry);
  }

  lemma ApplySelectedWithoutWrite(e: Engine, cfg: ApplyConfig, base: seq<Byte>, sel: Selection)
    ensures WithoutWrite(ApplySelected(e, cfg.(dryRun := false), base, sel),
                         ApplySelected(e, cfg.(dryRun := true), base, sel))
  {
    var wet := RunStage(e, cfg.(dryRun := false), base, sel);
    var dry := RunStage(e, cfg.(dryRun := true), base, sel);
    if ApplyPatch(e, base, sel.delta).Ok? {
      var result := ApplyPatch(e, base, sel.delta).value;
      OutputStageWithoutWrite(e, cfg, base, sel, result);
      ThenWithoutWrite([RunPatch], OutputStage(e, cfg.(dryRun := false), base, sel, result),
                       OutputStage(e, cfg.(dryRun := true), base, sel, result));
    }
    assert WithoutWrite(wet, dry);
    ThenWithoutWrite(if Checks(cfg.verify, sel.inputHash) then [VerifyInput] else [], wet, dry);
  }

  /** A dry run differs from a real one only by the final write: the same
      outcome, and the same steps up to it. */
  lemma DryRunOnlySkipsWrite(e: Engine, cfg: ApplyConfig, base: seq<Byte>, p: PatchData)
    ensures var wet := ApplyContainer(e, cfg.(dryRun := false), base, p);
            var dry := ApplyContainer(e, cfg.(dryRun := true), base, p);
            && dry.outcome == wet.outcome
            && (wet.outcome.Ok? ==> wet.steps == dry.steps + [Write(wet.outcome.value)])
            && (wet.outcome.Err? ==> wet.steps == dry.steps)
  {
    if Select(p, cfg.reverse).Ok? {
      ApplySelectedWithoutWrite(e, cfg, base, Select(p, cfg.reverse).value);
    }
  }

  lemma FinishSteps(cfg: ApplyConfig, base: seq<Byte>, result: seq<Byte>)
    ensures Write(result) in Finish(cfg, base, result).steps <==> !cfg.dryRun
    ensures ShowPreview(FindChanges(base, result)) in Finish(cfg, base, result).steps <==> cfg.level.Verbose?
    ensures forall k :: 0 <= k < |Finish(cfg, base, result).steps| ==>
              Finish(cfg, base, result).steps[k].Write? || Finish(cfg, base, result).steps[k].ShowPreview?
  {
  }

  lemma SelectedSucceeded(e: Engine, cfg: ApplyConfig, base: seq<Byte>, sel: Selection)
    requires ApplySelected(e, cfg, base, sel).outcome.Ok?
    ensures var run := ApplySelected(e, cfg, base, sel);
            var result := run.outcome.value;
            && ApplyPatch(e, base, sel.delta) == Ok(result)
            && (Checks(cfg.verify, sel.inputHash) ==> DigestOf(e.hasher, base, sel.inputHash.value))
            && (Checks(cfg.verify, sel.outputHash) ==> DigestOf(e.hasher, result, sel.outputHash.value))
            && (Write(result) in run.steps <==> !cfg.dryRun)
            && (ShowPreview(FindChanges(base, result)) in run.steps <==> cfg.level.Verbose?)
  {
    SelectedTrace(e, cfg, base, sel);
    var result := ApplyPatch(e, base, sel.delta).value;
    var fin := Finish(cfg, base, result);
    FinishSteps(cfg, base, result);
    var before: seq<Step> := if Checks(cfg.verify, sel.inputHash) then [VerifyInput] else [];
    var checked: seq<Step> := if Checks(cfg.verify, sel.outputHash) then [VerifyOutput] else [];
    AfterChecks(before, checked, fin.steps, Write(result));
    AfterChecks(before, checked, fin.steps, ShowPreview(FindChanges(base, result)));
  }

  /** A preview or a write occurs in a successful run's trace only if it
      occurs in the steps after the checks and the engine run. */
  lemma AfterChecks(before: seq<Step>, checked: seq<Step>, rest: seq<Step>, x: Step)
    requires OnlyChecks(before) && OnlyChecks(checked)
    requires x.Write? || x.ShowPreview?
    ensures x in before + ([RunPatch] + (checked + rest)) <==> x in rest
  {
    NotInChecks(checked, rest, x);
    NotInChecks([RunPatch], checked + rest, x);
    NotInChecks(before, [RunPatch] + (checked + rest), x);
  }

  /** The exact trace of a successful run on a selection. */
  lemma SelectedTrace(e: Engine, cfg: ApplyConfig, base: seq<Byte>, sel: Selection)
    requires ApplySelected(e, cfg, base, sel).outcome.Ok?
    ensures CheckDigest(e.hasher, cfg.verify, base, sel.inputHash).Ok?
    ensures ApplyPatch(e, base, sel.delta).Ok?
    ensures var result := ApplyPatch(e, base, sel.delta).value;
            && CheckDigest(e.hasher, cfg.verify, result, sel.outputHash).Ok?
            && ApplySelected(e, cfg, base, sel).outcome == Ok(result)
            && ApplySelected(e, cfg, base, sel).steps
               == (if Checks(cfg.verify, sel.inputHash) then [VerifyInput] else [])
                  + ([RunPatch] + ((if Checks(cfg.verify, sel.outputHash) then [VerifyOutput] else [])
                                   + Finish(cfg, base, result).steps))
  {
    SelectedOk(e, cfg, base, sel);
    RunStageOk(e, cfg, base, sel);
    OutputStageOk(e, cfg, base, sel, ApplyPatch(e, base, sel.delta).value);
  }

  /** A preview or a write is found after checks only if it is found in
      what follows them. */
  lemma NotInChecks(checks: seq<Step>, rest: seq<Step>, x: Step)
    requires OnlyChecks(checks)
    requires x.Write? || x.ShowPreview?
    ensures x in checks + rest <==> x in rest
  {
    assert x !in checks;
  }

  lemma SelectedOk(e: Engine, cfg: ApplyConfig, base: seq<Byte>, sel: Selection)
    requires ApplySelected(e, cfg, base, sel).outcome.Ok?
    ensures CheckDigest(e.hasher, cfg.verify, base, sel.inputHash).Ok?
    ensures ApplySelected(e, cfg, base, sel)
            == Then(if Checks(cfg.verify, sel.inputHash) then [VerifyInput] else [], RunStage(e, cfg, base, sel))
  {
  }

  lemma RunStageOk(e: Engine, cfg: ApplyConfig, base: seq<Byte>, sel: Selection)
    requires RunStage(e, cfg, base, sel).outcome.Ok?
    ensures ApplyPatch(e, base, sel.delta).Ok?
    ensures RunStage(e, cfg, base, sel)
            == Then([RunPatch], OutputStage(e, cfg, base, sel, ApplyPatch(e, base, sel.delta).value))
  {
  }

  lemma OutputStageOk(e: Engine, cfg: ApplyConfig, base: seq<Byte>, sel: Selection, result: seq<Byte>)
    requires OutputStage(e, cfg, base, sel, result).outcome.Ok?
    ensures CheckDigest(e.hasher, cfg.verify, result, sel.outputHash).Ok?
    ensures OutputStage(e, cfg, base, sel, result)
            == Then(if Checks(cfg.verify, sel.outputHash) then [VerifyOutput] else [], Finish(cfg, base, result))
  {
  }

  /** A successful run produced the engine's result for the selected delta,
      every digest it checked matched, the preview was shown exactly at the
      verbose level and the result was written exactly when not a dry run. */
  lemma ApplySucceeded(e: Engine, cfg: ApplyConfig, base: seq<Byte>, p: PatchData)
    requires ApplyContainer(e, cfg, base, p).outcome.Ok?
    ensures Select(p, cfg.reverse).Ok?
    ensures var sel := Select(p, cfg.reverse).value;
            var run := ApplyContainer(e, cfg, base, p);
            var result := run.outcome.value;
            && ApplyPatch(e, base, sel.delta) == Ok(result)
            && (Checks(cfg.verify, sel.inputHash) ==> sel.inputHash.value == Hash(e.hasher, base))
            && (Checks(cfg.verify, sel.outputHash) ==> sel.outputHash.value == Hash(e.hasher, result))
            && (Write(result) in run.steps <==> !cfg.dryRun)
            && (ShowPreview(FindChanges(base, result)) in run.steps <==> cfg.level.Verbose?)
  {
    var sel := Select(p, cfg.reverse).value;
    SelectedSucceeded(e, cfg, base, sel);
    var result := ApplySelected(e, cfg, base, sel).outcome.value;
    if Checks(cfg.verify, sel.inputHash) {
      DigestOfIsHash(e.hasher, base, sel.inputHash.value);
    }
    if Checks(cfg.verify, sel.outputHash) {
      DigestOfIsHash(e.hasher, result, sel.outputHash.value);
    }
  }

  /** Generating a container and applying it forward to the same base gives
      back the patched file, whenever the engine's delta reproduces it. */
  lemma GenerateThenApply(e: Engine, base: seq<Byte>, patched: seq<Byte>, checksum: bool, reverse: bool, cfg: ApplyConfig)
    requires Generate(e, base, patched, checksum, reverse).Ok?
    requires e.valid(e.diff(base, patched).value) && e.run(base, e.diff(base, patched).value) == Some(patched)
    requires !cfg.reverse
    ensures ApplyFile(e, cfg, base, Generate(e, base, patched, checksum, reverse).value).outcome == Ok(patched)
  {
    GenerateDecodes(e, base, patched, checksum, reverse);
    HashChecks(e, base, patched);
  }

  /** With a reverse delta that reproduces the base, applying the generated
      container in reverse to the patched file gives back the base. */
  lemma GenerateThenApplyReverse(e: Engine, base: seq<Byte>, patched: seq<Byte>, checksum: bool, cfg: ApplyConfig)
    requires Generate(e, base, patched, checksum, true).Ok?
    requires e.valid(e.diff(patched, base).value) && e.run(patched, e.diff(patched, base).value) == Some(base)
    requires cfg.reverse
    ensures ApplyFile(e, cfg, patched, Generate(e, base, patched, checksum, true).value).outcome == Ok(base)
  {
    GenerateDecodes(e, base, patched, checksum, true);
    HashChecks(e, base, patched);
  }

  /** The digests `generate` stores pass the checks `apply` makes. */
  lemma HashChecks(e: Engine, base: seq<Byte>, patched: seq<Byte>)
    ensures VerifyHash(e.hasher, base, Hash(e.hasher, base)).Ok?
    ensures VerifyHash(e.hasher, patched, Hash(e.hasher, patched)).Ok?
  {
    DigestOfIsHash(e.hasher, base, Hash(e.hasher, base));
    DigestOfIsHash(e.hasher, patched, Hash(e.hasher, patched));
  }
}
