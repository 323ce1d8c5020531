/**
 * The `audition` action of the command-line tool (index.js): for every
 * configured actor in turn, take the current screenshot, compare it with the
 * stored baseline or create that baseline, write a diff image on a mismatch,
 * and append one result record.
 *
 * The file system is a map from path to decoded image. The browser is not
 * modelled: each actor's screenshot is an opaque image handed in. pixelmatch
 * is a function parameter returning a differing-pixel count and the bytes of
 * the highlight image.
 */
module Audition {
  type Dimension = n: int | n > 0 witness 1

  /** A decoded RGBA raster; PNG forbids zero width or height. The bytes are opaque here. */
  datatype Image = Image(width: Dimension, height: Dimension, data: seq<bv8>)

  function PixelCount(img: Image): nat {
    img.width * img.height
  }

  /** A configured actor: its unique name and its category label (the browser device is not modelled). */
  datatype Actor = Actor(name: string, category: string)

  /** The values the `status` variable takes; `New` is only its initial value. */
  datatype Status = New | Match | Mismatch | BaselineCreated {
    /** The string the source stores. */
    function Label(): string {
      match this
      case New => "New"
      case Match => "Match"
      case Mismatch => "Mismatch"
      case BaselineCreated => "Baseline Created"
    }
  }

  /**
   * One pushed result record. `mismatch` is the percentage in hundredths:
   * `5.00%` is 500.
   */
  datatype TestResult = TestResult(
    actor: string,
    currentPath: string,
    diffPath: string,
    category: string,
    status: Status,
    mismatch: nat)

  /** What pixelmatch yields: the differing-pixel count and the pixels it painted into the diff buffer. */
  datatype Comparison = Comparison(numDiffPixels: nat, diffData: seq<bv8>)

  /** pixelmatch applied to the baseline image and the current image, in that order. */
  type Comparator = (Image, Image) -> Comparison

  /** pixelmatch counts at most one difference per pixel of the dimensions it is given, the baseline's. */
  ghost predicate CountsPixels(pixelmatch: Comparator) {
    forall baseline, current :: pixelmatch(baseline, current).numDiffPixels <= PixelCount(baseline)
  }

  /** What one run is given besides the actors: the platform's path separator, `--update`, and pixelmatch. */
  datatype Setting = Setting(sep: char, update: bool, pixelmatch: Comparator)

  /** The three artifact directories under `screentest`. */
  datatype Folder = Baseline | Current | Diff {
    function Name(): string {
      match this
      case Baseline => "baseline"
      case Current => "current"
      case Diff => "diff"
    }
  }

  /** `path.join('./screentest/<folder>', name + '.png')` with the platform separator `sep`. */
  function ArtifactPath(sep: char, folder: Folder, name: string): string {
    "screentest" + [sep] + folder.Name() + [sep] + name + ".png"
  }

  /** Distinct (folder, name) pairs never share a file. */
  lemma ArtifactPathInjective(sep: char, f1: Folder, n1: string, f2: Folder, n2: string)
    requires ArtifactPath(sep, f1, n1) == ArtifactPath(sep, f2, n2)
    ensures f1 == f2 && n1 == n2
  {
    var p := ArtifactPath(sep, f1, n1);
    assert p[11] == f1.Name()[0] && p[11] == f2.Name()[0];
    assert f1 == f2;
    var k := 12 + |f1.Name()|;
    assert n1 == p[k..|p| - 4] == n2;
  }

  type FileStore = map<string, Image>

  /** The file store and the record after filming one actor. */
  datatype Take = Take(files: FileStore, result: TestResult)

  /** The files and the results after the whole loop. */
  datatype Production = Production(files: FileStore, results: seq<TestResult>)

  /** What one iteration of the actor loop does to the files and which record it pushes. */
  function TakeOf(files: FileStore, s: Setting, actor: Actor, shot: Image): Take {
    var baselinePath := ArtifactPath(s.sep, Baseline, actor.name);
    var currentPath := ArtifactPath(s.sep, Current, actor.name);
    var diffPath := ArtifactPath(s.sep, Diff, actor.name);
    var files := files[currentPath := shot];
    if baselinePath in files && !s.update then
      var img1 := files[baselinePath];
      var img2 := files[currentPath];
      var cmp := s.pixelmatch(img1, img2);
      var mismatch := PercentHundredths(cmp.numDiffPixels, PixelCount(img1));
      if cmp.numDiffPixels > 0 then
        Take(files[diffPath := Image(img1.width, img1.height, cmp.diffData)],
             TestResult(actor.name, currentPath, diffPath, actor.category, Mismatch, mismatch))
      else
        Take(files, TestResult(actor.name, currentPath, diffPath, actor.category, Match, mismatch))
    else
      Take(files[baselinePath := files[currentPath]],
           TestResult(actor.name, currentPath, diffPath, actor.category, BaselineCreated, 0))
  }

  /** The whole loop over `actors`, each with its screenshot, in declaration order. */
  function ProductionOf(files: FileStore, s: Setting, actors: seq<Actor>, shots: seq<Image>): (p: Production)
    requires |shots| == |actors|
    decreases |actors|
  {
    if actors == [] then Production(files, [])
    else
      var n := |actors| - 1;
      var before := ProductionOf(files, s, actors[..n], shots[..n]);
      var take := TakeOf(before.files, s, actors[n], shots[n]);
      Production(take.files, before.results + [take.result])
  }

  /**
   * `(numDiffPixels / (width * height) * 100).toFixed(2)` in hundredths:
   * the nearest hundredth to the exact percentage, halves rounded up.
   */
  function PercentHundredths(numDiffPixels: nat, pixels: nat): (h: nat)
    requires pixels > 0
    ensures -(pixels as int) < 2 * (h * pixels - 10000 * numDiffPixels) <= pixels
  {
    var h := (20000 * numDiffPixels + pixels) / (2 * pixels);
    assert 2 * pixels * h <= 20000 * numDiffPixels + pixels < 2 * pixels * (h + 1);
    h
  }

  /** The run-loop state, updated in place as index.js does. */
  class Studio {
    /** The files under `./screentest`, by path. */
    var files: FileStore
    /** The `results` array. */
    var results: seq<TestResult>

    constructor (files: FileStore)
      ensures this.files == files && results == []
    {
      this.files := files;
      results := [];
    }

    /** One iteration of the loop: screenshot, baseline decision, diff, `results.push`. */
    method Film(actor: Actor, shot: Image, s: Setting)
      modifies this
      ensures files == TakeOf(old(files), s, actor, shot).files
      ensures results == old(results) + [TakeOf(old(files), s, actor, shot).result]
    {
      var baselinePath := ArtifactPath(s.sep, Baseline, actor.name);
      var currentPath := ArtifactPath(s.sep, Current, actor.name);
      var diffPath := ArtifactPath(s.sep, Diff, actor.name);

      files := files[currentPath := shot];

      var status := New;
      var mismatch := 0;

      if baselinePath in files && !s.update {
        var img1 := files[baselinePath];
        var img2 := files[currentPath];
        var cmp := s.pixelmatch(img1, img2);
        mismatch := PercentHundredths(cmp.numDiffPixels, PixelCount(img1));
        if cmp.numDiffPixels > 0 {
          files := files[diffPath := Image(img1.width, img1.height, cmp.diffData)];
          status := Mismatch;
        } else {
          status := Match;
        }
      } else {
        files := files[baselinePath := files[currentPath]];
        status := BaselineCreated;
      }

      results := results + [TestResult(actor.name, currentPath, diffPath, actor.category, status, mismatch)];
    }

    /** The action body: a fresh `results` array, then one take per actor in order. */
    method Audition(actors: seq<Actor>, shots: seq<Image>, s: Setting)
      requires |shots| == |actors|
      modifies this
      ensures files == ProductionOf(old(files), s, actors, shots).files
      ensures results == ProductionOf(old(files), s, actors, shots).results
    {
      results := [];
      for i := 0 to |actors|
        invariant Production(files, results) == ProductionOf(old(files), s, actors[..i], shots[..i])
      {
        assert actors[..i + 1][..i] == actors[..i] && shots[..i + 1][..i] == shots[..i];
        Film(actors[i], shots[i], s);
      }
      assert actors[..|actors|] == actors && shots[..|shots|] == shots;
    }
  }

  // ---------------------------------------------------------------------
  // The rounding step

  /** A positive multiple of a positive factor is at least that factor. */
  lemma {:induction false} MultipleAtLeast(k: nat, c: nat)
    ensures k * c >= 0
    ensures k >= 1 ==> k * c >= c
    decreases k
  {
    if k > 0 {
      MultipleAtLeast(k - 1, c);
      assert k * c == (k - 1) * c + c;
    }
  }

  /** Multiplying by a positive factor preserves `<=` both ways. */
  lemma ScaleMonotone(a: int, b: int, c: int)
    requires c > 0
    ensures a <= b <==> a * c <= b * c
  {
    if a <= b {
      MultipleAtLeast(b - a, c);
      assert b * c - a * c == (b - a) * c;
    } else {
      MultipleAtLeast(a - b, c);
      assert a * c - b * c == (a - b) * c;
    }
  }

  /** No differing pixels is 0.00%; every pixel differing is 100.00%; never more. */
  lemma PercentBounds(numDiffPixels: nat, pixels: nat)
    requires pixels > 0
    ensures numDiffPixels == 0 ==> PercentHundredths(numDiffPixels, pixels) == 0
    ensures numDiffPixels == pixels ==> PercentHundredths(numDiffPixels, pixels) == 10000
    ensures numDiffPixels <= pixels ==> PercentHundredths(numDiffPixels, pixels) <= 10000
  {
    var h := PercentHundredths(numDiffPixels, pixels);
    if numDiffPixels <= pixels {
      ScaleMonotone(numDiffPixels, pixels, 20000);
      assert (2 * h) * pixels <= 20001 * pixels;
      ScaleMonotone(2 * h, 20001, pixels);
    }
    if numDiffPixels == 0 {
      assert (2 * h) * pixels <= 1 * pixels;
      ScaleMonotone(2 * h, 1, pixels);
    }
    if numDiffPixels == pixels {
      assert 19999 * pixels < (2 * h) * pixels;
      ScaleMonotone(2 * h, 19999, pixels);
    }
  }

  /** For fixed dimensions, more differing pixels never give a smaller percentage. */
  lemma PercentMonotone(n1: nat, n2: nat, pixels: nat)
    requires pixels > 0 && n1 <= n2
    ensures PercentHundredths(n1, pixels) <= PercentHundredths(n2, pixels)
  {
    var h1, h2 := PercentHundredths(n1, pixels), PercentHundredths(n2, pixels);
    assert (2 * h1) * pixels < (2 * h2 + 2) * pixels;
    ScaleMonotone(2 * h2 + 2, 2 * h1, pixels);
  }

  // ---------------------------------------------------------------------
  // One actor

  /** `p` is absent from both stores or holds the same image in both. */
  predicate SameAt(f1: FileStore, f2: FileStore, p: string) {
    (p in f1 <==> p in f2) && (p in f1 ==> f1[p] == f2[p])
  }

  /** The comparing branch of the take: a baseline exists and no update is forced. */
  predicate Compares(files: FileStore, s: Setting, actor: Actor) {
    ArtifactPath(s.sep, Baseline, actor.name) in files && !s.update
  }

  /** The three artifact paths of one actor are three different files. */
  lemma ArtifactPathsDistinct(sep: char, name: string)
    ensures ArtifactPath(sep, Baseline, name) != ArtifactPath(sep, Current, name)
    ensures ArtifactPath(sep, Baseline, name) != ArtifactPath(sep, Diff, name)
    ensures ArtifactPath(sep, Current, name) != ArtifactPath(sep, Diff, name)
  {
    if ArtifactPath(sep, Baseline, name) == ArtifactPath(sep, Current, name) {
      ArtifactPathInjective(sep, Baseline, name, Current, name);
    }
    if ArtifactPath(sep, Baseline, name) == ArtifactPath(sep, Diff, name) {
      ArtifactPathInjective(sep, Baseline, name, Diff, name);
    }
    if ArtifactPath(sep, Current, name) == ArtifactPath(sep, Diff, name) {
      ArtifactPathInjective(sep, Current, name, Diff, name);
    }
  }

  /**
   * The record carries the actor's name and category and its current and diff
   * paths, and the current path holds the screenshot afterwards.
   */
  lemma TakeRecord(files: FileStore, s: Setting, actor: Actor, shot: Image)
    ensures var t := TakeOf(files, s, actor, shot);
      && t.result.actor == actor.name
      && t.result.category == actor.category
      && t.result.currentPath == ArtifactPath(s.sep, Current, actor.name)
      && t.result.diffPath == ArtifactPath(s.sep, Diff, actor.name)
      && ArtifactPath(s.sep, Current, actor.name) in t.files
      && t.files[ArtifactPath(s.sep, Current, actor.name)] == shot
  {
    ArtifactPathsDistinct(s.sep, actor.name);
  }

  /**
   * Compare when a baseline exists and `--update` is off: the status is then
   * Match or Mismatch; otherwise it is Baseline Created. It is never the
   * initial `New`.
   */
  lemma StatusFollowsBaseline(files: FileStore, s: Setting, actor: Actor, shot: Image)
    ensures var status := TakeOf(files, s, actor, shot).result.status;
      && ((status == Match || status == Mismatch) <==> Compares(files, s, actor))
      && (status == BaselineCreated <==> !Compares(files, s, actor))
      && status != New
  {
    ArtifactPathsDistinct(s.sep, actor.name);
  }

  /** In the compare branch, Mismatch exactly when pixelmatch counts a differing pixel, Match exactly when it counts none. */
  lemma MismatchIffDiffPixels(files: FileStore, s: Setting, actor: Actor, shot: Image)
    requires Compares(files, s, actor)
    ensures var baseline := files[ArtifactPath(s.sep, Baseline, actor.name)];
      var count := s.pixelmatch(baseline, shot).numDiffPixels;
      var status := TakeOf(files, s, actor, shot).result.status;
      && (status == Mismatch <==> count > 0)
      && (status == Match <==> count == 0)
  {
    ArtifactPathsDistinct(s.sep, actor.name);
  }

  /**
   * After the take the baseline path holds an image: the old baseline when it
   * was compared against, otherwise exactly the screenshot, whether or not a
   * baseline existed before.
   */
  lemma BaselineAfterTake(files: FileStore, s: Setting, actor: Actor, shot: Image)
    ensures var t := TakeOf(files, s, actor, shot);
      var baselinePath := ArtifactPath(s.sep, Baseline, actor.name);
      && baselinePath in t.files
      && (Compares(files, s, actor) ==> t.files[baselinePath] == files[baselinePath])
      && (!Compares(files, s, actor) ==> t.files[baselinePath] == shot)
  {
    ArtifactPathsDistinct(s.sep, actor.name);
  }

  /**
   * The diff path is written only on a mismatch, with an image of the
   * baseline's dimensions holding pixelmatch's output; in every other case it
   * is left as it was.
   */
  lemma DiffOnlyOnMismatch(files: FileStore, s: Setting, actor: Actor, shot: Image)
    ensures var t := TakeOf(files, s, actor, shot);
      var diffPath := ArtifactPath(s.sep, Diff, actor.name);
      var baselinePath := ArtifactPath(s.sep, Baseline, actor.name);
      && (t.result.status != Mismatch ==> SameAt(files, t.files, diffPath))
      && (t.result.status == Mismatch ==>
            baselinePath in files && diffPath in t.files &&
            t.files[diffPath] == Image(files[baselinePath].width, files[baselinePath].height,
                                       s.pixelmatch(files[baselinePath], shot).diffData))
  {
    ArtifactPathsDistinct(s.sep, actor.name);
  }

  /** With `--update` the run never compares: Baseline Created, baseline overwritten, no diff written. */
  lemma UpdateNeverCompares(files: FileStore, s: Setting, actor: Actor, shot: Image)
    requires s.update
    ensures var t := TakeOf(files, s, actor, shot);
      && t.result.status == BaselineCreated
      && t.result.mismatch == 0
      && t.files[ArtifactPath(s.sep, Baseline, actor.name)] == shot
      && SameAt(files, t.files, ArtifactPath(s.sep, Diff, actor.name))
  {
    ArtifactPathsDistinct(s.sep, actor.name);
  }

  /**
   * The mismatch is pixelmatch's count as a percentage of the baseline's
   * pixels, rounded to hundredths, when compared; 0 when the baseline is
   * created. With a pixelmatch that counts at most one per pixel it lies in
   * [0, 100.00].
   */
  lemma MismatchPercentage(files: FileStore, s: Setting, actor: Actor, shot: Image)
    ensures var t := TakeOf(files, s, actor, shot);
      var baselinePath := ArtifactPath(s.sep, Baseline, actor.name);
      && (Compares(files, s, actor) ==>
            t.result.mismatch == PercentHundredths(s.pixelmatch(files[baselinePath], shot).numDiffPixels,
                                                   PixelCount(files[baselinePath])))
      && (!Compares(files, s, actor) ==> t.result.mismatch == 0)
      && (CountsPixels(s.pixelmatch) ==> t.result.mismatch <= 10000)
  {
    ArtifactPathsDistinct(s.sep, actor.name);
    var baselinePath := ArtifactPath(s.sep, Baseline, actor.name);
    if Compares(files, s, actor) && CountsPixels(s.pixelmatch) {
      var img1 := files[baselinePath];
      PercentBounds(s.pixelmatch(img1, shot).numDiffPixels, PixelCount(img1));
    }
  }

  /** A take touches only its actor's three artifact paths and never removes a file. */
  lemma TakeFrame(files: FileStore, s: Setting, actor: Actor, shot: Image)
    ensures var t := TakeOf(files, s, actor, shot);
      && files.Keys <= t.files.Keys
      && forall p ::
           (p != ArtifactPath(s.sep, Baseline, actor.name) && p != ArtifactPath(s.sep, Current, actor.name) &&
            p != ArtifactPath(s.sep, Diff, actor.name)) ==> SameAt(files, t.files, p)
  {
  }

  /** A take never removes a file. */
  lemma TakeKeepsKeys(files: FileStore, s: Setting, actor: Actor, shot: Image)
    ensures files.Keys <= TakeOf(files, s, actor, shot).files.Keys
  {
  }

  /** A take leaves every artifact of a differently named actor as it was. */
  lemma TakeKeepsOthers(files: FileStore, s: Setting, actor: Actor, shot: Image, name: string)
    requires name != actor.name
    ensures forall f: Folder :: SameAt(files, TakeOf(files, s, actor, shot).files, ArtifactPath(s.sep, f, name))
  {
    TakeFrame(files, s, actor, shot);
    forall f: Folder
      ensures && ArtifactPath(s.sep, f, name) != ArtifactPath(s.sep, Baseline, actor.name)
              && ArtifactPath(s.sep, f, name) != ArtifactPath(s.sep, Current, actor.name)
              && ArtifactPath(s.sep, f, name) != ArtifactPath(s.sep, Diff, actor.name)
    {
      forall g: Folder | ArtifactPath(s.sep, f, name) == ArtifactPath(s.sep, g, actor.name)
        ensures false
      {
        ArtifactPathInjective(s.sep, f, name, g, actor.name);
      }
    }
  }

  /** The record depends on the store only through the actor's baseline path. */
  lemma TakeLocal(f1: FileStore, f2: FileStore, s: Setting, actor: Actor, shot: Image)
    requires SameAt(f1, f2, ArtifactPath(s.sep, Baseline, actor.name))
    ensures TakeOf(f1, s, actor, shot).result == TakeOf(f2, s, actor, shot).result
  {
    ArtifactPathsDistinct(s.sep, actor.name);
  }

  // ---------------------------------------------------------------------
  // The loop over all actors

  /** Actor names are unique within the configuration. */
  ghost predicate DistinctNames(actors: seq<Actor>) {
    forall i, j :: 0 <= i < j < |actors| ==> actors[i].name != actors[j].name
  }

  /** `p` is one of the artifact paths of some actor in `actors`. */
  ghost predicate IsArtifactOf(sep: char, actors: seq<Actor>, p: string) {
    exists i, f: Folder :: 0 <= i < |actors| && p == ArtifactPath(sep, f, actors[i].name)
  }

  /** The last step appends one record and keeps the records before it. */
  lemma ResultsExtend(files: FileStore, s: Setting, actors: seq<Actor>, shots: seq<Image>)
    requires |shots| == |actors| > 0
    ensures var n := |actors| - 1;
      var before := ProductionOf(files, s, actors[..n], shots[..n]);
      ProductionOf(files, s, actors, shots).results == before.results + [TakeOf(before.files, s, actors[n], shots[n]).result]
  {
  }

  /** What the last actor's record copies from it. */
  lemma RecordLast(files: FileStore, s: Setting, actors: seq<Actor>, shots: seq<Image>)
    requires |shots| == |actors| > 0
    ensures var n := |actors| - 1;
      var r := TakeOf(ProductionOf(files, s, actors[..n], shots[..n]).files, s, actors[n], shots[n]).result;
      && r.actor == actors[n].name
      && r.category == actors[n].category
      && r.currentPath == ArtifactPath(s.sep, Current, actors[n].name)
      && r.diffPath == ArtifactPath(s.sep, Diff, actors[n].name)
      && r.status != New
  {
    var n := |actors| - 1;
    var before := ProductionOf(files, s, actors[..n], shots[..n]);
    TakeRecord(before.files, s, actors[n], shots[n]);
    StatusFollowsBaseline(before.files, s, actors[n], shots[n]);
  }

  /** The record of actor `i` copies its name, category and paths and has left the initial status. */
  lemma {:induction false} RecordAt(files: FileStore, s: Setting, actors: seq<Actor>, shots: seq<Image>, i: nat)
    requires |shots| == |actors| && i < |actors|
    ensures |ProductionOf(files, s, actors, shots).results| == |actors|
    ensures var r := ProductionOf(files, s, actors, shots).results[i];
      && r.actor == actors[i].name
      && r.category == actors[i].category
      && r.currentPath == ArtifactPath(s.sep, Current, actors[i].name)
      && r.diffPath == ArtifactPath(s.sep, Diff, actors[i].name)
      && r.status != New
    decreases |actors|
  {
    var n := |actors| - 1;
    ResultsExtend(files, s, actors, shots);
    ResultsLength(files, s, actors[..n], shots[..n]);
    if i < n {
      RecordAt(files, s, actors[..n], shots[..n], i);
      assert actors[..n][i] == actors[i];
    } else {
      RecordLast(files, s, actors, shots);
    }
  }

  /**
   * One record per actor, in declaration order, each copying the actor's name
   * and category and its paths, none with the initial status.
   */
  lemma OneResultPerActor(files: FileStore, s: Setting, actors: seq<Actor>, shots: seq<Image>)
    requires |shots| == |actors|
    ensures var p := ProductionOf(files, s, actors, shots);
      && |p.results| == |actors|
      && forall i :: 0 <= i < |actors| ==>
           && p.results[i].actor == actors[i].name
           && p.results[i].category == actors[i].category
           && p.results[i].currentPath == ArtifactPath(s.sep, Current, actors[i].name)
           && p.results[i].diffPath == ArtifactPath(s.sep, Diff, actors[i].name)
           && p.results[i].status != New
  {
    ResultsLength(files, s, actors, shots);
    forall i | 0 <= i < |actors|
      ensures var r := ProductionOf(files, s, actors, shots).results[i];
        && r.actor == actors[i].name
        && r.category == actors[i].category
        && r.currentPath == ArtifactPath(s.sep, Current, actors[i].name)
        && r.diffPath == ArtifactPath(s.sep, Diff, actors[i].name)
        && r.status != New
    {
      RecordAt(files, s, actors, shots, i);
    }
  }

  /** Once the loop is over, every actor has a baseline file. */
  lemma {:induction false} BaselinesExistAfterRun(files: FileStore, s: Setting, actors: seq<Actor>, shots: seq<Image>)
    requires |shots| == |actors|
    ensures var p := ProductionOf(files, s, actors, shots);
      && files.Keys <= p.files.Keys
      && forall i :: 0 <= i < |actors| ==> ArtifactPath(s.sep, Baseline, actors[i].name) in p.files
    decreases |actors|
  {
    if actors != [] {
      var n := |actors| - 1;
      BaselinesExistAfterRun(files, s, actors[..n], shots[..n]);
      var before := ProductionOf(files, s, actors[..n], shots[..n]);
      var p := ProductionOf(files, s, actors, shots);
      TakeKeepsKeys(before.files, s, actors[n], shots[n]);
      BaselineAfterTake(before.files, s, actors[n], shots[n]);
      forall i | 0 <= i < n
        ensures ArtifactPath(s.sep, Baseline, actors[i].name) in p.files
      {
        assert actors[..n][i] == actors[i];
      }
    }
  }

  /** The loop touches no file that is not an artifact path of one of the actors. */
  lemma {:induction false} ProductionFrame(files: FileStore, s: Setting, actors: seq<Actor>, shots: seq<Image>, p: string)
    requires |shots| == |actors|
    requires !IsArtifactOf(s.sep, actors, p)
    ensures SameAt(files, ProductionOf(files, s, actors, shots).files, p)
    decreases |actors|
  {
    if actors != [] {
      var n := |actors| - 1;
      assert !IsArtifactOf(s.sep, actors[..n], p);
      ProductionFrame(files, s, actors[..n], shots[..n], p);
      var before := ProductionOf(files, s, actors[..n], shots[..n]);
      TakeFrame(before.files, s, actors[n], shots[n]);
      assert p != ArtifactPath(s.sep, Baseline, actors[n].name);
      assert p != ArtifactPath(s.sep, Current, actors[n].name);
      assert p != ArtifactPath(s.sep, Diff, actors[n].name);
    }
  }

  /** A path of a name no actor carries is not an artifact path of any of them. */
  lemma NotArtifactOfOthers(sep: char, actors: seq<Actor>, name: string, folder: Folder)
    requires forall i :: 0 <= i < |actors| ==> actors[i].name != name
    ensures !IsArtifactOf(sep, actors, ArtifactPath(sep, folder, name))
  {
    if IsArtifactOf(sep, actors, ArtifactPath(sep, folder, name)) {
      var i, f: Folder :| 0 <= i < |actors| && ArtifactPath(sep, folder, name) == ArtifactPath(sep, f, actors[i].name);
      ArtifactPathInjective(sep, folder, name, f, actors[i].name);
    }
  }

  /** With unique names, the last actor's record does not depend on the actors before it. */
  lemma LastResultIndependent(files: FileStore, s: Setting, actors: seq<Actor>, shots: seq<Image>)
    requires |shots| == |actors| > 0
    requires DistinctNames(actors)
    ensures var n := |actors| - 1;
      TakeOf(ProductionOf(files, s, actors[..n], shots[..n]).files, s, actors[n], shots[n]).result ==
      TakeOf(files, s, actors[n], shots[n]).result
  {
    var n := |actors| - 1;
    var before := ProductionOf(files, s, actors[..n], shots[..n]);
    var baselinePath := ArtifactPath(s.sep, Baseline, actors[n].name);
    NotArtifactOfOthers(s.sep, actors[..n], actors[n].name, Baseline);
    ProductionFrame(files, s, actors[..n], shots[..n], baselinePath);
    TakeLocal(before.files, files, s, actors[n], shots[n]);
  }

  /** The loop pushes one record per actor. */
  lemma {:induction false} ResultsLength(files: FileStore, s: Setting, actors: seq<Actor>, shots: seq<Image>)
    requires |shots| == |actors|
    ensures |ProductionOf(files, s, actors, shots).results| == |actors|
    decreases |actors|
  {
    if actors != [] {
      var n := |actors| - 1;
      ResultsLength(files, s, actors[..n], shots[..n]);
    }
  }

  /** The record of actor `i` is what filming it alone against the initial files gives. */
  lemma {:induction false} ResultAt(files: FileStore, s: Setting, actors: seq<Actor>, shots: seq<Image>, i: nat)
    requires |shots| == |actors| && i < |actors|
    requires DistinctNames(actors)
    ensures |ProductionOf(files, s, actors, shots).results| == |actors|
    ensures ProductionOf(files, s, actors, shots).results[i] == TakeOf(files, s, actors[i], shots[i]).result
    decreases |actors|
  {
    var n := |actors| - 1;
    ResultsExtend(files, s, actors, shots);
    ResultsLength(files, s, actors[..n], shots[..n]);
    if i < n {
      ResultAt(files, s, actors[..n], shots[..n], i);
      assert actors[..n][i] == actors[i] && shots[..n][i] == shots[i];
    } else {
      LastResultIndependent(files, s, actors, shots);
    }
  }

  /**
   * With unique names, each actor's record is what filming it alone against
   * the initial files gives: no actor's outcome depends on another's.
   */
  lemma ResultsIndependent(files: FileStore, s: Setting, actors: seq<Actor>, shots: seq<Image>)
    requires |shots| == |actors|
    requires DistinctNames(actors)
    ensures var p := ProductionOf(files, s, actors, shots);
      && |p.results| == |actors|
      && forall i :: 0 <= i < |actors| ==> p.results[i] == TakeOf(files, s, actors[i], shots[i]).result
  {
    ResultsLength(files, s, actors, shots);
    forall i | 0 <= i < |actors|
      ensures ProductionOf(files, s, actors, shots).results[i] == TakeOf(files, s, actors[i], shots[i]).result
    {
      ResultAt(files, s, actors, shots, i);
    }
  }

  /** With `--update`, the last actor's diff file is the one the run started with. */
  lemma UpdateStep(files: FileStore, s: Setting, actors: seq<Actor>, shots: seq<Image>)
    requires |shots| == |actors| > 0
    requires DistinctNames(actors) && s.update
    ensures var n := |actors| - 1;
      SameAt(files, ProductionOf(files, s, actors, shots).files, ArtifactPath(s.sep, Diff, actors[n].name))
  {
    var n := |actors| - 1;
    var before := ProductionOf(files, s, actors[..n], shots[..n]);
    UpdateNeverCompares(before.files, s, actors[n], shots[n]);
    NotArtifactOfOthers(s.sep, actors[..n], actors[n].name, Diff);
    ProductionFrame(files, s, actors[..n], shots[..n], ArtifactPath(s.sep, Diff, actors[n].name));
  }

  /** With `--update`, actor `i` ends Baseline Created, with its own screenshot as baseline and its diff file untouched. */
  lemma {:induction false} UpdateAt(files: FileStore, s: Setting, actors: seq<Actor>, shots: seq<Image>, i: nat)
    requires |shots| == |actors| && i < |actors|
    requires DistinctNames(actors) && s.update
    ensures var p := ProductionOf(files, s, actors, shots);
      && ArtifactPath(s.sep, Baseline, actors[i].name) in p.files
      && p.files[ArtifactPath(s.sep, Baseline, actors[i].name)] == shots[i]
      && SameAt(files, p.files, ArtifactPath(s.sep, Diff, actors[i].name))
    decreases |actors|
  {
    var n := |actors| - 1;
    var before := ProductionOf(files, s, actors[..n], shots[..n]);
    var t := TakeOf(before.files, s, actors[n], shots[n]);
    assert ProductionOf(files, s, actors, shots).files == t.files;
    if i < n {
      UpdateAt(files, s, actors[..n], shots[..n], i);
      assert actors[..n][i] == actors[i] && shots[..n][i] == shots[i];
      TakeKeepsOthers(before.files, s, actors[n], shots[n], actors[i].name);
      assert SameAt(before.files, t.files, ArtifactPath(s.sep, Baseline, actors[i].name));
      assert SameAt(before.files, t.files, ArtifactPath(s.sep, Diff, actors[i].name));
    } else {
      UpdateNeverCompares(before.files, s, actors[n], shots[n]);
      UpdateStep(files, s, actors, shots);
    }
  }

  /** With `--update`, the record of actor `i` is Baseline Created with mismatch 0, whatever the names. */
  lemma {:induction false} UpdateCreatedAt(files: FileStore, s: Setting, actors: seq<Actor>, shots: seq<Image>, i: nat)
    requires |shots| == |actors| && i < |actors| && s.update
    ensures |ProductionOf(files, s, actors, shots).results| == |actors|
    ensures ProductionOf(files, s, actors, shots).results[i].status == BaselineCreated
    ensures ProductionOf(files, s, actors, shots).results[i].mismatch == 0
    decreases |actors|
  {
    var n := |actors| - 1;
    ResultsExtend(files, s, actors, shots);
    ResultsLength(files, s, actors[..n], shots[..n]);
    if i < n {
      UpdateCreatedAt(files, s, actors[..n], shots[..n], i);
    } else {
      UpdateNeverCompares(ProductionOf(files, s, actors[..n], shots[..n]).files, s, actors[n], shots[n]);
    }
  }

  /** With `--update`, every record of the run is Baseline Created with mismatch 0, for any actor names. */
  lemma UpdateAllCreated(files: FileStore, s: Setting, actors: seq<Actor>, shots: seq<Image>)
    requires |shots| == |actors| && s.update
    ensures var p := ProductionOf(files, s, actors, shots);
      && |p.results| == |actors|
      && forall i :: 0 <= i < |actors| ==> p.results[i].status == BaselineCreated && p.results[i].mismatch == 0
  {
    ResultsLength(files, s, actors, shots);
    forall i | 0 <= i < |actors|
      ensures && ProductionOf(files, s, actors, shots).results[i].status == BaselineCreated
              && ProductionOf(files, s, actors, shots).results[i].mismatch == 0
    {
      UpdateCreatedAt(files, s, actors, shots, i);
    }
  }

  /**
   * With `--update` and unique names, every actor ends with its own screenshot
   * as baseline, is Baseline Created, and has no diff file written.
   */
  lemma UpdateRun(files: FileStore, s: Setting, actors: seq<Actor>, shots: seq<Image>)
    requires |shots| == |actors|
    requires DistinctNames(actors) && s.update
    ensures var p := ProductionOf(files, s, actors, shots);
      && |p.results| == |actors|
      && forall i :: 0 <= i < |actors| ==>
           && p.results[i].status == BaselineCreated
           && ArtifactPath(s.sep, Baseline, actors[i].name) in p.files
           && p.files[ArtifactPath(s.sep, Baseline, actors[i].name)] == shots[i]
           && SameAt(files, p.files, ArtifactPath(s.sep, Diff, actors[i].name))
  {
    var p := ProductionOf(files, s, actors, shots);
    ResultsIndependent(files, s, actors, shots);
    forall i | 0 <= i < |actors|
      ensures && p.results[i].status == BaselineCreated
              && ArtifactPath(s.sep, Baseline, actors[i].name) in p.files
              && p.files[ArtifactPath(s.sep, Baseline, actors[i].name)] == shots[i]
              && SameAt(files, p.files, ArtifactPath(s.sep, Diff, actors[i].name))
    {
      UpdateNeverCompares(files, s, actors[i], shots[i]);
      UpdateAt(files, s, actors, shots, i);
    }
  }

  /**
   * On a first run, when no actor has a baseline yet, every actor is
   * Baseline Created with a 0 mismatch and ends with a baseline file.
   */
  lemma FirstRunCreatesBaselines(files: FileStore, s: Setting, actors: seq<Actor>, shots: seq<Image>)
    requires |shots| == |actors|
    requires DistinctNames(actors)
    requires forall i :: 0 <= i < |actors| ==> ArtifactPath(s.sep, Baseline, actors[i].name) !in files
    ensures var p := ProductionOf(files, s, actors, shots);
      && |p.results| == |actors|
      && forall i :: 0 <= i < |actors| ==>
           && p.results[i].status == BaselineCreated
           && p.results[i].mismatch == 0
           && ArtifactPath(s.sep, Baseline, actors[i].name) in p.files
  {
    ResultsIndependent(files, s, actors, shots);
    BaselinesExistAfterRun(files, s, actors, shots);
    forall i | 0 <= i < |actors|
      ensures && TakeOf(files, s, actors[i], shots[i]).result.status == BaselineCreated
              && TakeOf(files, s, actors[i], shots[i]).result.mismatch == 0
    {
      StatusFollowsBaseline(files, s, actors[i], shots[i]);
      MismatchPercentage(files, s, actors[i], shots[i]);
    }
  }
}
