/**
  The application's entry point: argument and directory checks, the choice
  of the image to process, the size every card is brought to, and the
  comparison of the cards found in that image. Reading files, detecting
  cards, extracting their objects and matching descriptors are done by
  image-processing code outside this model; their results are inputs here.
*/
module Driver {
  import opened Wrappers
  import opened GoodMatches
  import opened CardPairing

  /** Card diameters the detector looks for, in pixels. */
  const CardSizeMin: int := 100
  const CardSizeMax: int := 400

  /** Images whose larger side exceeds this are downscaled first. */
  const PrescaleLimit: int := 700

  /** The global diagnostic flag; it is off. */
  const Verbose: bool := false

  /** Integer division by two as C++ computes it: truncated toward zero. */
  function Half(x: int): (h: int)
    ensures x >= 0 ==> 2 * h <= x <= 2 * h + 1
    ensures x < 0 ==> 2 * h - 1 <= x <= 2 * h
  {
    if x >= 0 then x / 2 else -((-x) / 2)
  }

  /** The side every card is resized to: the mean of the card size bounds. */
  function UniDim(sizeMin: int, sizeMax: int): (d: int)
    ensures sizeMin <= sizeMax ==> sizeMin <= d <= sizeMax
  {
    Half(sizeMin + sizeMax)
  }

  lemma UniDimOfDefaults()
    ensures UniDim(CardSizeMin, CardSizeMax) == 250
  {
  }

  /** Whether an image of the given size is downscaled before detection. */
  predicate Prescaled(rows: nat, cols: nat): (b: bool)
    ensures b <==> rows > PrescaleLimit || cols > PrescaleLimit
  {
    (if rows >= cols then rows else cols) > PrescaleLimit
  }

  /** The image-processing results the entry point consumes, for the one
      image it processes. */
  datatype Vision = Vision(
    // rows and columns of the grayscale image read from a file
    imageSize: string -> (nat, nat),
    // for a file and whether it was downscaled: one entry per card found,
    // the number of objects extracted from it once brought to UniDim
    cards: (string, bool) -> seq<nat>,
    // the matcher's correspondences for object i of card k against object j of card l
    matches: (nat, nat, nat, nat) -> seq<KeyMatch>)

  /** How a run ends. */
  datatype Outcome =
    | Usage                  // wrong number of arguments: help is shown
    | PathNotFound           // the directory does not exist
    | NoImages               // no *.jpg, *.png or *.tif file in it
    | FileIndexOutOfRange    // fewer than four images: the fourth is read out of range
    | NoCards(file: string, prescaled: bool)
    | Compared(file: string, prescaled: bool, uniDim: int,
               pairs: seq<(nat, nat)>, results: seq<Option<(nat, nat)>>)

  /** The process exit code of an outcome; none where the behaviour is undefined. */
  function ExitCode(o: Outcome): (code: Option<int>)
    ensures code.None? <==> o.FileIndexOutOfRange?
    ensures code == Some(1) <==> o.PathNotFound? || o.NoImages?
    ensures code == Some(0) <==> o.Usage? || o.NoCards? || o.Compared?
  {
    match o
    case Usage => Some(0)
    case PathNotFound => Some(1)
    case NoImages => Some(1)
    case FileIndexOutOfRange => None
    case NoCards(_, _) => Some(0)
    case Compared(_, _, _, _, _) => Some(0)
  }

  /** One run with argc arguments (the program name included), the directory
      existing or not, and files the image names the directory lists. */
  method Run(argc: int, dirExists: bool, files: seq<string>, vision: Vision) returns (outcome: Outcome)
    ensures argc != 2 ==> outcome == Usage
    ensures argc == 2 && !dirExists ==> outcome == PathNotFound
    ensures argc == 2 && dirExists && files == [] ==> outcome == NoImages
    ensures argc == 2 && dirExists && 0 < |files| < 4 ==> outcome == FileIndexOutOfRange
    ensures argc == 2 && dirExists && |files| >= 4 ==>
      (outcome.NoCards? || outcome.Compared?) && outcome.file == files[3] &&
      outcome.prescaled == Prescaled(vision.imageSize(files[3]).0, vision.imageSize(files[3]).1) &&
      (outcome.NoCards? <==> vision.cards(files[3], outcome.prescaled) == [])
    ensures outcome.Compared? ==>
      var objects := vision.cards(outcome.file, outcome.prescaled);
      outcome.uniDim == 250 &&
      outcome.pairs == AllCardPairs(|objects|) &&
      Reported(objects, vision.matches, outcome.pairs, outcome.results)
  {
    if argc != 2 {
      return Usage;
    }
    if !dirExists {
      return PathNotFound;
    }
    if files == [] {
      return NoImages;
    }
    if |files| < 4 {
      return FileIndexOutOfRange;
    }
    var filesToOpen := [files[3]];
    // the loop over filesToOpen returns at the end of its first iteration
    var file := filesToOpen[0];
    var (rows, cols) := vision.imageSize(file);
    var dim := if rows >= cols then rows else cols;
    var prescaled := dim > PrescaleLimit;
    var cards := vision.cards(file, prescaled);
    if cards == [] {
      return NoCards(file, prescaled);
    }
    var uniDim := UniDim(CardSizeMin, CardSizeMax);
    var pairs, results := CompareCards(cards, vision.matches, Verbose);
    return Compared(file, prescaled, uniDim, pairs, results);
  }
}
