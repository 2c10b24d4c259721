/**
 * The per-image loop of `process_project_folder`: recognise the text of each image,
 * look for a code, and either copy the image to the output directory under the
 * normalized code (the source stays) or move it to the error directory under its own
 * file name (the source goes). Every image adds one to exactly one of the two counters.
 *
 * OCR (`easyocr`'s `readtext`) is the parameter `ocr`: given a file's bytes it returns
 * the recognised fragments, or None where the recogniser raises. Reading a path that
 * does not exist raises too. These are the only exceptions in the model: once an image
 * has been read, the copy and the move that follow find their source present.
 */
module ClassificationPipeline {
  import opened Wrappers
  import opened Paths
  import opened Storage
  import opened PatternMatcher
  import opened PatternNormalizer
  import opened DestinationResolver

  /** The fixed inputs of one run: the two target directories, the word class and the recogniser. */
  datatype Config = Config(
    outputDir: string,
    errorDir: string,
    isWordChar: char -> bool,
    ocr: Data -> Option<seq<string>>)

  /** How one image was handled. */
  datatype Outcome =
    | Placed(destination: string)      // copied to the output directory
    | Unmatched(destination: string)   // no code found: moved to the error directory
    | Errored(moved: bool)             // an exception: moved to the error directory if still present

  predicate IsFailure(o: Outcome) {
    !o.Placed?
  }

  /** `" ".join(fragments)`. */
  function JoinFragments(fragments: seq<string>): (text: string)
    ensures fragments == [] ==> text == ""
    ensures |fragments| == 1 ==> text == fragments[0]
    decreases |fragments|
  {
    if fragments == [] then ""
    else if |fragments| == 1 then fragments[0]
    else JoinFragments(fragments[..|fragments| - 1]) + " " + fragments[|fragments| - 1]
  }

  /** `extract_text_from_image`: None where reading or recognition raises. */
  function ExtractText(files: map<string, Data>, image: string, ocr: Data -> Option<seq<string>>): (r: Option<string>)
    ensures r.Some? <==> image in files && ocr(files[image]).Some?
    ensures r.Some? ==> r.value == JoinFragments(ocr(files[image]).value)
  {
    if image !in files then None
    else match ocr(files[image])
      case None => None
      case Some(fragments) => Some(JoinFragments(fragments))
  }

  /** Where a failed image goes: `os.path.join(error_dir, filename)`. */
  function ErrorDestination(image: string, cfg: Config): (p: string)
    ensures |cfg.errorDir| <= |p| && p[..|cfg.errorDir|] == cfg.errorDir
    ensures Basename(p) == Basename(image)
  {
    var name := Basename(image);
    JoinShape(cfg.errorDir, name);
    BasenameOfJoin(cfg.errorDir, name);
    Join(cfg.errorDir, name)
  }

  /**
   * One pass of the loop body, including its `except` branch. A placed image is copied
   * to a path that did not exist and keeps its source; an unmatched image is moved to
   * the error directory; after an exception the image is moved only if it still exists.
   * No path other than the image itself ever disappears.
   */
  function Step(files: map<string, Data>, image: string, cfg: Config): (r: (map<string, Data>, Outcome))
    ensures r.1.Placed? ==> image in files && r.1.destination !in files
                            && r.0 == Copied(files, image, r.1.destination)
    ensures r.1.Unmatched? ==> image in files && r.1.destination == ErrorDestination(image, cfg)
                               && r.0 == Moved(files, image, r.1.destination)
    ensures r.1.Errored? ==> (r.1.moved <==> image in files)
    ensures r.1.Errored? ==> r.0 == if r.1.moved then Moved(files, image, ErrorDestination(image, cfg)) else files
    ensures forall p :: p in files && p != image ==> p in r.0
  {
    var errorDestination := ErrorDestination(image, cfg);
    match ExtractText(files, image, cfg.ocr)
    case None =>
      if image in files then (Moved(files, image, errorDestination), Errored(true))
      else (files, Errored(false))
    case Some(text) =>
      match FindPatternInText(cfg.isWordChar, text)
      case None => (Moved(files, image, errorDestination), Unmatched(errorDestination))
      case Some(code) =>
        var newNameBase := NormalizePattern(code);
        var extension := SplitExt(Basename(image)).1;
        var destination := Resolve(files.Keys, cfg.outputDir, newNameBase, extension);
        (Copied(files, image, destination), Placed(destination))
  }

  /** An image is placed exactly when it can be read and recognised and its text holds a code. */
  lemma PlacedIffCodeFound(files: map<string, Data>, image: string, cfg: Config)
    ensures Step(files, image, cfg).1.Placed?
        <==> image in files && cfg.ocr(files[image]).Some?
             && exists i :: 0 <= i < |ExtractText(files, image, cfg.ocr).value|
                            && MatchesAt(cfg.isWordChar, ExtractText(files, image, cfg.ocr).value, i)
  {
  }

  /** The name a placed image gets: the normalized code it was found under, with its own extension. */
  lemma PlacedUnderNormalizedCode(files: map<string, Data>, image: string, cfg: Config)
    requires Step(files, image, cfg).1.Placed?
    ensures var text := ExtractText(files, image, cfg.ocr).value;
            var code := FindPatternInText(cfg.isWordChar, text).value;
            Step(files, image, cfg).1.destination
              == Resolve(files.Keys, cfg.outputDir, NormalizePattern(code), SplitExt(Basename(image)).1)
  {
  }

  /** What one pass of the loop body does to the files, and how it ends for the image. */
  type StepFn = (map<string, Data>, string) -> (map<string, Data>, Outcome)

  /** Applying a per-image step to each image in turn: the files afterwards and one outcome per image. */
  function Fold(step: StepFn,
                files: map<string, Data>, images: seq<string>): (r: (map<string, Data>, seq<Outcome>))
    ensures |r.1| == |images|
    decreases |images|
  {
    if images == [] then (files, [])
    else
      var before := Fold(step, files, images[..|images| - 1]);
      var after := step(before.0, images[|images| - 1]);
      (after.0, before.1 + [after.1])
  }

  /** The step of the loop of `process_project_folder`, for one configuration. */
  function StepWith(cfg: Config): StepFn {
    (files, image) => Step(files, image, cfg)
  }

  /** The loop of `process_project_folder` over the images, in order. */
  function Run(files: map<string, Data>, images: seq<string>, cfg: Config): (r: (map<string, Data>, seq<Outcome>))
    ensures |r.1| == |images|
  {
    Fold(StepWith(cfg), files, images)
  }

  /** A step removes no path other than its own image. */
  ghost predicate KeepsOthers(step: StepFn) {
    forall files, image, p :: p in files && p != image ==> p in step(files, image).0
  }

  /** A step that places an image leaves the image where it was. */
  ghost predicate KeepsPlaced(step: StepFn) {
    forall files, image :: step(files, image).1.Placed? ==> image in step(files, image).0
  }

  /** Step removes nothing but its image, and a placed image stays: it is copied, not moved. */
  lemma StepKeeps(cfg: Config)
    ensures KeepsOthers(StepWith(cfg)) && KeepsPlaced(StepWith(cfg))
  {
    forall files, image, p | p in files && p != image
      ensures p in StepWith(cfg)(files, image).0
    {
      assert StepWith(cfg)(files, image) == Step(files, image, cfg);
    }
    forall files, image | StepWith(cfg)(files, image).1.Placed?
      ensures image in StepWith(cfg)(files, image).0
    {
      assert StepWith(cfg)(files, image) == Step(files, image, cfg);
    }
  }

  /** Folding over one more image is one more step. */
  lemma FoldSnoc(step: StepFn,
                 files: map<string, Data>, images: seq<string>, i: int)
    requires 0 <= i < |images|
    ensures var before := Fold(step, files, images[..i]);
            var after := step(before.0, images[i]);
            Fold(step, files, images[..i + 1]) == (after.0, before.1 + [after.1])
  {
    assert images[..i + 1][..i] == images[..i];
  }

  /** One more pass of the loop body extends the run by one image. */
  lemma RunExtend(initial: map<string, Data>, images: seq<string>, i: int, cfg: Config,
                  files: map<string, Data>, outcomes: seq<Outcome>, files': map<string, Data>, outcome: Outcome)
    requires 0 <= i < |images|
    requires Run(initial, images[..i], cfg) == (files, outcomes)
    requires (files', outcome) == Step(files, images[i], cfg)
    ensures Run(initial, images[..i + 1], cfg) == (files', outcomes + [outcome])
  {
    FoldSnoc(StepWith(cfg), initial, images, i);
    assert StepWith(cfg)(files, images[i]) == Step(files, images[i], cfg);
  }

  function CountPlaced(outcomes: seq<Outcome>): (n: nat)
    ensures n <= |outcomes|
  {
    if outcomes == [] then 0
    else CountPlaced(outcomes[..|outcomes| - 1]) + if outcomes[|outcomes| - 1].Placed? then 1 else 0
  }

  function CountFailed(outcomes: seq<Outcome>): (n: nat)
    ensures n <= |outcomes|
  {
    if outcomes == [] then 0
    else CountFailed(outcomes[..|outcomes| - 1]) + if IsFailure(outcomes[|outcomes| - 1]) then 1 else 0
  }

  /** Appending one outcome adds it to exactly the counter it belongs to. */
  lemma CountsSnoc(outcomes: seq<Outcome>, o: Outcome)
    ensures CountPlaced(outcomes + [o]) == CountPlaced(outcomes) + if o.Placed? then 1 else 0
    ensures CountFailed(outcomes + [o]) == CountFailed(outcomes) + if IsFailure(o) then 1 else 0
  {
    assert (outcomes + [o])[..|outcomes|] == outcomes;
  }

  /** Every image counts once: as a success or as a failure, never both. */
  lemma {:induction false} CountsPartition(outcomes: seq<Outcome>)
    ensures CountPlaced(outcomes) + CountFailed(outcomes) == |outcomes|
  {
    if outcomes != [] {
      CountsPartition(outcomes[..|outcomes| - 1]);
    }
  }

  /** Folding a step that keeps other paths: only the images themselves can disappear. */
  lemma {:induction false} FoldRemovesOnlyImages(step: StepFn,
                                                 files: map<string, Data>, images: seq<string>, p: string)
    requires KeepsOthers(step)
    requires p in files && p !in images
    ensures p in Fold(step, files, images).0
  {
    if images != [] {
      FoldRemovesOnlyImages(step, files, images[..|images| - 1], p);
    }
  }

  /** Over a whole run only images disappear: every other file that existed is still there. */
  lemma RunRemovesOnlyImages(files: map<string, Data>, images: seq<string>, cfg: Config, p: string)
    requires p in files && p !in images
    ensures p in Run(files, images, cfg).0
  {
    StepKeeps(cfg);
    FoldRemovesOnlyImages(StepWith(cfg), files, images, p);
  }

  /** Folding a step that keeps other paths and placed images, over distinct images: placed images stay. */
  lemma {:induction false} FoldKeepsPlacedSources(step: StepFn,
                                                  files: map<string, Data>, images: seq<string>, i: int)
    requires KeepsOthers(step) && KeepsPlaced(step)
    requires forall a, b :: 0 <= a < b < |images| ==> images[a] != images[b]
    requires 0 <= i < |images| && Fold(step, files, images).1[i].Placed?
    ensures images[i] in Fold(step, files, images).0
  {
    var n := |images| - 1;
    var prefix := images[..n];
    if i < n {
      assert prefix[i] == images[i];
      FoldKeepsPlacedSources(step, files, prefix, i);
      assert images[n] != images[i];
    }
  }

  /** With distinct images, every image that was placed is still in place when the run ends. */
  lemma RunKeepsPlacedSources(files: map<string, Data>, images: seq<string>, cfg: Config, i: int)
    requires forall a, b :: 0 <= a < b < |images| ==> images[a] != images[b]
    requires 0 <= i < |images| && Run(files, images, cfg).1[i].Placed?
    ensures images[i] in Run(files, images, cfg).0
  {
    StepKeeps(cfg);
    FoldKeepsPlacedSources(StepWith(cfg), files, images, i);
  }

  /**
   * The body of the loop of `process_project_folder` for one image, `try` and `except`
   * included: the files afterwards and the outcome are those of Step, and `placed` says
   * which counter the image adds to.
   */
  method ProcessImage(fs: FileSystem, imagePath: string, cfg: Config) returns (placed: bool, ghost outcome: Outcome)
    modifies fs
    ensures (fs.files, outcome) == Step(old(fs.files), imagePath, cfg)
    ensures placed == outcome.Placed?
  {
    var filename := Basename(imagePath);
    var extractedText := ExtractText(fs.files, imagePath, cfg.ocr);
    match extractedText {
      case None =>
        var errorDestination := Join(cfg.errorDir, filename);
        outcome := Errored(fs.Exists(imagePath));
        if fs.Exists(imagePath) {
          fs.Move(imagePath, errorDestination);
        }
        placed := false;
      case Some(text) =>
        var initialPattern := FindPatternInText(cfg.isWordChar, text);
        match initialPattern {
          case Some(code) =>
            var newNameBase := NormalizePattern(code);
            var originalExtension := SplitExt(filename).1;
            var destinationPath := GetUniqueDestinationPath(fs, cfg.outputDir, newNameBase, originalExtension);
            fs.Copy(imagePath, destinationPath);
            outcome := Placed(destinationPath);
            placed := true;
          case None =>
            var errorDestination := Join(cfg.errorDir, filename);
            fs.Move(imagePath, errorDestination);
            outcome := Unmatched(errorDestination);
            placed := false;
        }
    }
  }

  /**
   * The loop of `process_project_folder`: the counters and the filesystem after the
   * loop are those of Run, so each image was handled once, in order.
   */
  method ProcessImages(fs: FileSystem, images: seq<string>, cfg: Config) returns (successCount: nat, failCount: nat)
    modifies fs
    ensures fs.files == Run(old(fs.files), images, cfg).0
    ensures successCount == CountPlaced(Run(old(fs.files), images, cfg).1)
    ensures failCount == CountFailed(Run(old(fs.files), images, cfg).1)
    ensures successCount + failCount == |images|
  {
    ghost var initial := fs.files;
    successCount, failCount := 0, 0;
    ghost var outcomes: seq<Outcome> := [];
    var i := 0;
    while i < |images|
      invariant 0 <= i <= |images|
      invariant fs.files == Run(initial, images[..i], cfg).0
      invariant outcomes == Run(initial, images[..i], cfg).1
      invariant successCount == CountPlaced(outcomes) && failCount == CountFailed(outcomes)
    {
      ghost var before := fs.files;
      var placed, outcome := ProcessImage(fs, images[i], cfg);
      RunExtend(initial, images, i, cfg, before, outcomes, fs.files, outcome);
      if placed {
        successCount := successCount + 1;
      } else {
        failCount := failCount + 1;
      }
      CountsSnoc(outcomes, outcome);
      outcomes := outcomes + [outcome];
      i := i + 1;
    }
    assert images[..i] == images;
    CountsPartition(outcomes);
  }
}
