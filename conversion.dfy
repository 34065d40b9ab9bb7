/** What one run of the extractor's conversion loop does, as functions of the state it
    starts from: which paths exist, what has been recorded in the trace, and which
    staged copies have been listed for deletion. The methods of `Extraction.Extractor`
    are proved to compute exactly these functions; the lemmas here state what they
    mean. */
module Conversion {
  import opened Assets
  import opened Paths
  import opened Host

  /** The part of the world a conversion changes. */
  datatype Pipeline = Pipeline(paths: set<string>, trace: seq<Event>, staged: seq<string>)

  /** The exceptions the loop body lets escape: the FileInfo constructor refusing the
      path (ArgumentException, PathTooLongException, ...) and NotImplementedException
      for an audio entry. */
  datatype Error = InvalidPath | NotImplemented

  /** What the loop body did with one entry. */
  datatype EntryResult = Converted(next: Pipeline) | Throws(error: Error)

  /** How the loop ended: it went through every entry, or `error` escaped the body
      for the entry at `index`, which ends the constructor. */
  datatype Outcome = Completed | Threw(index: nat, error: Error)

  // ---------------------------------------------------------------------------
  // Observations on the trace
  // ---------------------------------------------------------------------------

  /** The output paths probed with File.Exists, in order. */
  function Targets(events: seq<Event>): (r: seq<string>)
    ensures |r| <= |events|
  {
    if events == [] then []
    else
      var last := events[|events| - 1];
      Targets(events[..|events| - 1]) + (if last.Target? then [last.path] else [])
  }

  predicate Asked(events: seq<Event>, path: string) {
    exists i :: 0 <= i < |events| && events[i].Ask? && events[i].path == path
  }

  predicate Saved(events: seq<Event>, path: string) {
    exists i :: 0 <= i < |events| && events[i].Save? && events[i].path == path
  }

  /** `q` is `p` with more: no path disappears, and the trace and the deletion list only
      have entries appended. */
  predicate Extends(p: Pipeline, q: Pipeline) {
    && p.paths <= q.paths
    && |p.trace| <= |q.trace| && q.trace[..|p.trace|] == p.trace
    && |p.staged| <= |q.staged| && q.staged[..|p.staged|] == p.staged
  }

  /** Every staged copy listed for deletion exists. */
  predicate StagedExist(p: Pipeline) {
    forall s :: s in p.staged ==> s in p.paths
  }

  lemma ExtendsTransitive(p: Pipeline, q: Pipeline, r: Pipeline)
    requires Extends(p, q) && Extends(q, r)
    ensures Extends(p, r)
  {
    assert r.trace[..|p.trace|] == r.trace[..|q.trace|][..|p.trace|];
    assert r.staged[..|p.staged|] == r.staged[..|q.staged|][..|p.staged|];
  }

  /** The appended part of a trace adds its own targets after the old ones. */
  lemma {:induction false} TargetsAppend(a: seq<Event>, b: seq<Event>)
    ensures Targets(a + b) == Targets(a) + Targets(b)
    decreases |b|
  {
    if b == [] {
      assert a + b == a;
    } else {
      var b' := b[..|b| - 1];
      assert (a + b)[..|a + b| - 1] == a + b';
      TargetsAppend(a, b');
    }
  }

  // ---------------------------------------------------------------------------
  // Writing one image (Extractor.cs lines 93-105, 136-148, 159-174)
  // ---------------------------------------------------------------------------

  /** SaveImage: File.Create and the encoder for the configured format. */
  function SaveImage(p: Pipeline, o: Oracles, path: string, format: ImageExtension, image: Image)
    : (r: (Pipeline, bool))
    ensures r.1 <==> !o.createFails(path)
    ensures r.0.paths == if r.1 then p.paths + {path} else p.paths
    ensures r.0.staged == p.staged
    ensures r.0.trace == p.trace + [if r.1 then Save(path, format, image) else SaveFailed(path)]
  {
    if o.createFails(path) then (p.(trace := p.trace + [SaveFailed(path)]), false)
    else (p.(paths := p.paths + {path}, trace := p.trace + [Save(path, format, image)]), true)
  }

  /** The overwrite policy around SaveImage: an existing target is written only after
      the user answers Yes; a missing one is written without asking. The result's
      second half is false when the write threw. */
  function SaveWithConfirm(p: Pipeline, o: Oracles, target: string, format: ImageExtension, image: Image)
    : (r: (Pipeline, bool))
    ensures !r.1 ==> o.createFails(target)
  {
    var p0 := p.(trace := p.trace + [Target(target)]);
    if target in p.paths then
      var yes := o.confirm(target);
      var p1 := p0.(trace := p0.trace + [Ask(target, yes)]);
      if yes then SaveImage(p1, o, target, format, image) else (p1, true)
    else SaveImage(p0, o, target, format, image)
  }

  /** The events one SaveWithConfirm appends, given whether the target existed, the
      user's answer and whether the write throws. */
  function WriteEvents(present: bool, yes: bool, fails: bool, target: string,
                       format: ImageExtension, image: Image): seq<Event>
  {
    [Target(target)]
    + (if present then [Ask(target, yes)] else [])
    + (if !present || yes then [if fails then SaveFailed(target) else Save(target, format, image)] else [])
  }

  lemma WriteWithConfirmSteps(p: Pipeline, o: Oracles, target: string, format: ImageExtension, image: Image)
    ensures var r := SaveWithConfirm(p, o, target, format, image);
      var present, yes, fails := target in p.paths, o.confirm(target), o.createFails(target);
      && r.0.trace == p.trace + WriteEvents(present, yes, fails, target, format, image)
      && r.0.staged == p.staged
      && r.0.paths == (if (!present || yes) && !fails then p.paths + {target} else p.paths)
      && (r.1 <==> !((!present || yes) && fails))
  {
  }

  /** The overwrite rule, on the events one write appends: the user is asked exactly
      when the target exists, and the image is written exactly when the target is
      missing or the answer is Yes, unless the write throws. */
  lemma WriteEventsMeaning(present: bool, yes: bool, fails: bool, target: string,
                           format: ImageExtension, image: Image)
    ensures var w := WriteEvents(present, yes, fails, target, format, image);
      && (Asked(w, target) <==> present)
      && (Saved(w, target) <==> (!present || yes) && !fails)
  {
    var w := WriteEvents(present, yes, fails, target, format, image);
    var e := if fails then SaveFailed(target) else Save(target, format, image);
    if present && yes {
      assert w == [Target(target), Ask(target, yes), e];
      assert w[1].Ask? && w[2] == e;
    } else if present {
      assert w == [Target(target), Ask(target, yes)];
      assert w[1].Ask?;
    } else {
      assert w == [Target(target), e];
      assert w[1] == e;
    }
  }

  /** One write's events are all about its target, and it probes exactly that target. */
  lemma WriteEventsScope(present: bool, yes: bool, fails: bool, target: string,
                         format: ImageExtension, image: Image)
    ensures var w := WriteEvents(present, yes, fails, target, format, image);
      && (forall e :: e in w ==> e.path == target)
      && Targets(w) == [target]
  {
    var e := if fails then SaveFailed(target) else Save(target, format, image);
    var rest := (if present then [Ask(target, yes)] else []) + (if !present || yes then [e] else []);
    WriteEventsSplit(present, yes, fails, target, format, image, rest);
    TargetsOfSingle(Target(target));
    TargetsAppend([Target(target)], rest);
    NoTargetsWithoutProbe(rest);
  }

  /** A write's events are its probe followed by events that are about the target and
      are not probes. */
  lemma WriteEventsSplit(present: bool, yes: bool, fails: bool, target: string,
                         format: ImageExtension, image: Image, rest: seq<Event>)
    requires rest == (if present then [Ask(target, yes)] else [])
                     + (if !present || yes then [if fails then SaveFailed(target) else Save(target, format, image)] else [])
    ensures WriteEvents(present, yes, fails, target, format, image) == [Target(target)] + rest
    ensures forall x :: x in rest ==> x.path == target && !x.Target?
  {
  }

  lemma TargetsOfSingle(e: Event)
    ensures Targets([e]) == if e.Target? then [e.path] else []
  {
    assert [e][..0] == [];
  }

  lemma {:induction false} NoTargetsWithoutProbe(events: seq<Event>)
    requires forall e :: e in events ==> !e.Target?
    ensures Targets(events) == []
    decreases |events|
  {
    if events != [] {
      NoTargetsWithoutProbe(events[..|events| - 1]);
    }
  }

  /** The overwrite rule for one target (Extractor.cs lines 93-105 and 136-148). */
  lemma OverwriteRule(p: Pipeline, o: Oracles, target: string, format: ImageExtension, image: Image)
    ensures var r := SaveWithConfirm(p, o, target, format, image);
      var added := r.0.trace[|p.trace|..];
      var writes := target !in p.paths || o.confirm(target);
      && (Asked(added, target) <==> target in p.paths)
      && (Saved(added, target) <==> writes && !o.createFails(target))
      && (r.1 <==> !(writes && o.createFails(target)))
      && r.0.paths == (if writes && !o.createFails(target) then p.paths + {target} else p.paths)
  {
    WriteWithConfirmSteps(p, o, target, format, image);
    var r := SaveWithConfirm(p, o, target, format, image);
    assert r.0.trace[|p.trace|..] == WriteEvents(target in p.paths, o.confirm(target), o.createFails(target), target, format, image);
    WriteEventsMeaning(target in p.paths, o.confirm(target), o.createFails(target), target, format, image);
  }

  /** One write probes exactly its target, touches nothing else, and only adds. */
  lemma WriteTouchesOnlyTarget(p: Pipeline, o: Oracles, target: string, format: ImageExtension, image: Image)
    ensures var r := SaveWithConfirm(p, o, target, format, image);
      && Extends(p, r.0) && r.0.staged == p.staged
      && Targets(r.0.trace) == Targets(p.trace) + [target]
      && (forall e :: e in r.0.trace[|p.trace|..] ==> e.path == target)
  {
    WriteWithConfirmSteps(p, o, target, format, image);
    var r := SaveWithConfirm(p, o, target, format, image);
    var w := WriteEvents(target in p.paths, o.confirm(target), o.createFails(target), target, format, image);
    assert r.0.trace[|p.trace|..] == w;
    assert r.0.trace[..|p.trace|] == p.trace;
    WriteEventsScope(target in p.paths, o.confirm(target), o.createFails(target), target, format, image);
    TargetsAppend(p.trace, w);
  }

  /** The part of WriteTouchesOnlyTarget about the probed outputs. */
  lemma WriteProbesTarget(p: Pipeline, o: Oracles, target: string, format: ImageExtension, image: Image)
    ensures Targets(SaveWithConfirm(p, o, target, format, image).0.trace) == Targets(p.trace) + [target]
  {
    WriteTouchesOnlyTarget(p, o, target, format, image);
  }

  // ---------------------------------------------------------------------------
  // Single textures (Extractor.cs lines 80-112)
  // ---------------------------------------------------------------------------

  /** Staging: FileInfo.CopyTo to the staged path; on success the copy is listed for
      deletion. None when the copy throws. */
  function Stage(p: Pipeline, o: Oracles, baseDir: string, file: string): (r: Option<Pipeline>)
    ensures r.Some? <==> StagedPath(baseDir, file) !in p.paths && !o.copyFails(file)
    ensures r.Some? ==> r.value == Pipeline(p.paths + {StagedPath(baseDir, file)}, p.trace,
                                            p.staged + [StagedPath(baseDir, file)])
  {
    var copy := StagedPath(baseDir, file);
    if copy in p.paths || o.copyFails(file) then None
    else Some(Pipeline(p.paths + {copy}, p.trace, p.staged + [copy]))
  }

  /** ConvertTexture2DToPng: stage, decode, then write the one target. */
  function ConvertTexture2D(p: Pipeline, o: Oracles, baseDir: string, format: ImageExtension, file: string)
    : (r: Pipeline)
    ensures p.paths <= r.paths
  {
    match Stage(p, o, baseDir, file)
    case None => p
    case Some(p1) =>
      var copy := StagedPath(baseDir, file);
      var p2 := p1.(trace := p1.trace + [Load(copy)]);
      match o.loadTexture(copy)
      case None => p2
      case Some(texture) => SaveWithConfirm(p2, o, TextureTarget(file, format), format, texture).0
  }

  /** A single texture, staging. When the copy throws (the staged path already exists,
      or the copy fails) nothing changes: no staging, no decode, no write. Otherwise the
      staged copy is listed for deletion and the decoder is called on it first. */
  lemma Texture2DStaging(p: Pipeline, o: Oracles, baseDir: string, format: ImageExtension, file: string)
    ensures var r := ConvertTexture2D(p, o, baseDir, format, file);
      var copy := StagedPath(baseDir, file);
      var staged := copy !in p.paths && !o.copyFails(file);
      && Extends(p, r)
      && (StagedExist(p) ==> StagedExist(r))
      && (!staged ==> r == p)
      && (staged ==> r.staged == p.staged + [copy] && |r.trace| > |p.trace| && r.trace[|p.trace|] == Load(copy))
  {
    var copy := StagedPath(baseDir, file);
    if copy !in p.paths && !o.copyFails(file) {
      var p1 := Stage(p, o, baseDir, file).value;
      var p2 := p1.(trace := p1.trace + [Load(copy)]);
      assert Extends(p, p2);
      if o.loadTexture(copy).Some? {
        var target := TextureTarget(file, format);
        WriteTouchesOnlyTarget(p2, o, target, format, o.loadTexture(copy).value);
        ExtendsTransitive(p, p2, ConvertTexture2D(p, o, baseDir, format, file));
      }
    }
  }

  /** A single texture, output: exactly one target is probed when the copy decodes,
      the input path with ".xnb" replaced, and none otherwise. */
  lemma Texture2DTarget(p: Pipeline, o: Oracles, baseDir: string, format: ImageExtension, file: string)
    ensures var r := ConvertTexture2D(p, o, baseDir, format, file);
      var copy := StagedPath(baseDir, file);
      var decoded := copy !in p.paths && !o.copyFails(file) && o.loadTexture(copy).Some?;
      Targets(r.trace) == Targets(p.trace) + (if decoded then [TextureTarget(file, format)] else [])
  {
    var copy := StagedPath(baseDir, file);
    if copy !in p.paths && !o.copyFails(file) {
      var p1 := Stage(p, o, baseDir, file).value;
      var p2 := p1.(trace := p1.trace + [Load(copy)]);
      TargetsAppend(p1.trace, [Load(copy)]);
      TargetsOfSingle(Load(copy));
      if o.loadTexture(copy).Some? {
        WriteTouchesOnlyTarget(p2, o, TextureTarget(file, format), format, o.loadTexture(copy).value);
      }
    }
  }

  /** A single texture that is staged but does not decode is skipped after the load:
      only the staged copy is added and listed, and nothing is written. */
  lemma DecodeFailureWritesNothing(p: Pipeline, o: Oracles, baseDir: string, format: ImageExtension, file: string)
    requires StagedPath(baseDir, file) !in p.paths && !o.copyFails(file)
    requires o.loadTexture(StagedPath(baseDir, file)).None?
    ensures var r := ConvertTexture2D(p, o, baseDir, format, file);
      var copy := StagedPath(baseDir, file);
      r == Pipeline(p.paths + {copy}, p.trace + [Load(copy)], p.staged + [copy])
  {
  }

  // ---------------------------------------------------------------------------
  // Cube textures (Extractor.cs lines 115-156)
  // ---------------------------------------------------------------------------

  /** Face `face` as the texture it is copied into: `size` by `size`, with the pixels
      GetData hands back for that face. */
  function FaceImage(o: Oracles, copy: string, size: Size, face: nat): (r: Image)
    ensures r.width == size && r.height == size && |r.pixels| == size * size
  {
    Image(size, size, FacePixels(o, copy, face, size * size))
  }

  /** The six faces of the cube decoded from `copy`, in face order. */
  function FaceImages(o: Oracles, copy: string, size: Size): seq<Image> {
    seq(6, face requires 0 <= face < 6 => FaceImage(o, copy, size, face))
  }

  /** The first `n` iterations of the face loop, face i being written as `images[i]` to
      `targets[i]`; the second half is false once a write has thrown, and no later
      face is then attempted. */
  function SaveFaces(p: Pipeline, o: Oracles, targets: seq<string>, images: seq<Image>,
                     format: ImageExtension, n: nat): (r: (Pipeline, bool))
    requires n <= |targets| && n <= |images|
    ensures p.paths <= r.0.paths && r.0.staged == p.staged
  {
    if n == 0 then (p, true)
    else
      var r := SaveFaces(p, o, targets, images, format, n - 1);
      if !r.1 then r
      else SaveWithConfirm(r.0, o, targets[n - 1], format, images[n - 1])
  }

  /** The face loop only adds to the world and lists nothing for deletion. */
  lemma {:induction false} FacesExtend(p: Pipeline, o: Oracles, targets: seq<string>, images: seq<Image>,
                                      format: ImageExtension, n: nat)
    requires n <= |targets| && n <= |images|
    ensures var q := SaveFaces(p, o, targets, images, format, n).0;
      Extends(p, q) && q.staged == p.staged
  {
    if n > 0 {
      FacesExtend(p, o, targets, images, format, n - 1);
      var r := SaveFaces(p, o, targets, images, format, n - 1);
      if r.1 {
        WriteTouchesOnlyTarget(r.0, o, targets[n - 1], format, images[n - 1]);
        ExtendsTransitive(p, r.0, SaveFaces(p, o, targets, images, format, n).0);
      }
    }
  }

  /** The faces are attempted in order: the targets probed are the first m targets for
      some m <= n, and all n when no write threw. */
  lemma {:induction false} FacesInOrder(p: Pipeline, o: Oracles, targets: seq<string>, images: seq<Image>,
                                       format: ImageExtension, n: nat)
    requires n <= |targets| && n <= |images|
    ensures InOrder(p, SaveFaces(p, o, targets, images, format, n), targets, n)
  {
    if n == 0 {
      assert targets[..0] == [];
    } else {
      FacesInOrder(p, o, targets, images, format, n - 1);
      var r := SaveFaces(p, o, targets, images, format, n - 1);
      var q := SaveFaces(p, o, targets, images, format, n);
      if r.1 {
        assert q == SaveWithConfirm(r.0, o, targets[n - 1], format, images[n - 1]);
        WriteProbesTarget(r.0, o, targets[n - 1], format, images[n - 1]);
      } else {
        assert q == r;
      }
      InOrderStep(p, r, q, targets, n);
    }
  }

  /** The targets probed since `p` are the first m of `targets`, m <= n, and all n when
      the loop is still going. */
  predicate InOrder(p: Pipeline, r: (Pipeline, bool), targets: seq<string>, n: nat)
    requires n <= |targets|
  {
    var m := |Targets(r.0.trace)| - |Targets(p.trace)|;
    && 0 <= m <= n
    && Targets(r.0.trace) == Targets(p.trace) + targets[..m]
    && (r.1 ==> m == n)
  }

  /** One face further: a stopped loop stays as it was, a running one probes the next
      face's target. */
  lemma InOrderStep(p: Pipeline, r: (Pipeline, bool), q: (Pipeline, bool), targets: seq<string>, n: nat)
    requires 0 < n <= |targets|
    requires InOrder(p, r, targets, n - 1)
    requires r.1 ==> Targets(q.0.trace) == Targets(r.0.trace) + [targets[n - 1]]
    requires !r.1 ==> q == r
    ensures InOrder(p, q, targets, n)
  {
    if r.1 {
      assert targets[..n] == targets[..n - 1] + [targets[n - 1]];
    }
  }

  /** A write that throws was attempted: the target probed, the write failed last. */
  lemma FailedWrite(p: Pipeline, o: Oracles, target: string, format: ImageExtension, image: Image)
    requires !SaveWithConfirm(p, o, target, format, image).1
    ensures var q := SaveWithConfirm(p, o, target, format, image).0;
      && o.createFails(target)
      && Targets(q.trace) == Targets(p.trace) + [target]
      && |q.trace| > 0 && q.trace[|q.trace| - 1] == SaveFailed(target)
  {
    WriteTouchesOnlyTarget(p, o, target, format, image);
  }

  /** When a face's write throws, that failed write is the last thing the loop did and
      it was the write of the last face whose target was probed. */
  lemma {:induction false} FacesFailure(p: Pipeline, o: Oracles, targets: seq<string>, images: seq<Image>,
                                       format: ImageExtension, n: nat)
    requires n <= |targets| && n <= |images|
    requires !SaveFaces(p, o, targets, images, format, n).1
    ensures FailedAt(p, SaveFaces(p, o, targets, images, format, n).0, o, targets, n)
  {
    var r := SaveFaces(p, o, targets, images, format, n - 1);
    var q := SaveFaces(p, o, targets, images, format, n);
    if !r.1 {
      FacesFailure(p, o, targets, images, format, n - 1);
      assert q == r;
      FailedAtLater(p, r.0, o, targets, n - 1, n);
    } else {
      var w := SaveWithConfirm(r.0, o, targets[n - 1], format, images[n - 1]);
      assert q == w;
      FacesInOrder(p, o, targets, images, format, n - 1);
      FailedWrite(r.0, o, targets[n - 1], format, images[n - 1]);
      FailedAtWrite(p, r, w.0, o, targets, n);
    }
  }

  /** The face whose write threw is the m-th probed since `p`, 0 < m <= n, and the
      failure is the last event. */
  predicate FailedAt(p: Pipeline, q: Pipeline, o: Oracles, targets: seq<string>, n: nat)
    requires n <= |targets|
  {
    var m := |Targets(q.trace)| - |Targets(p.trace)|;
    && 0 < m <= n
    && o.createFails(targets[m - 1])
    && |q.trace| > 0 && q.trace[|q.trace| - 1] == SaveFailed(targets[m - 1])
  }

  lemma FailedAtLater(p: Pipeline, q: Pipeline, o: Oracles, targets: seq<string>, k: nat, n: nat)
    requires k <= n <= |targets|
    requires FailedAt(p, q, o, targets, k)
    ensures FailedAt(p, q, o, targets, n)
  {
  }

  /** The write of face n - 1 threw after the first n - 1 faces went through. */
  lemma FailedAtWrite(p: Pipeline, r: (Pipeline, bool), q: Pipeline, o: Oracles, targets: seq<string>, n: nat)
    requires 0 < n <= |targets|
    requires InOrder(p, r, targets, n - 1) && r.1
    requires o.createFails(targets[n - 1])
    requires Targets(q.trace) == Targets(r.0.trace) + [targets[n - 1]]
    requires |q.trace| > 0 && q.trace[|q.trace| - 1] == SaveFailed(targets[n - 1])
    ensures FailedAt(p, q, o, targets, n)
  {
  }

  /** Every image the face loop writes is face k, written in the configured format
      to the k-th target. */
  lemma {:induction false} FacesImages(p: Pipeline, o: Oracles, targets: seq<string>, images: seq<Image>,
                                      format: ImageExtension, n: nat)
    requires n <= |targets| && n <= |images|
    ensures var q := SaveFaces(p, o, targets, images, format, n).0;
      forall i :: |p.trace| <= i < |q.trace| && q.trace[i].Save? ==>
        exists k :: 0 <= k < n && q.trace[i] == Save(targets[k], format, images[k])
  {
    if n > 0 {
      FacesImages(p, o, targets, images, format, n - 1);
      FacesExtend(p, o, targets, images, format, n - 1);
      var r := SaveFaces(p, o, targets, images, format, n - 1);
      var q := SaveFaces(p, o, targets, images, format, n).0;
      if r.1 {
        var target, image := targets[n - 1], images[n - 1];
        assert q == SaveWithConfirm(r.0, o, target, format, image).0;
        WriteWithConfirmSteps(r.0, o, target, format, image);
        var w := WriteEvents(target in r.0.paths, o.confirm(target), o.createFails(target), target, format, image);
        WriteSavesImage(target in r.0.paths, o.confirm(target), o.createFails(target), target, format, image);
        forall i | |p.trace| <= i < |q.trace| && q.trace[i].Save?
          ensures exists k :: 0 <= k < n && q.trace[i] == Save(targets[k], format, images[k])
        {
          if i >= |r.0.trace| {
            assert q.trace[i] == w[i - |r.0.trace|];
            assert q.trace[i] == Save(targets[n - 1], format, images[n - 1]);
          } else {
            assert q.trace[i] == r.0.trace[i];
            var k :| 0 <= k < n - 1 && r.0.trace[i] == Save(targets[k], format, images[k]);
            assert q.trace[i] == Save(targets[k], format, images[k]);
          }
        }
      } else {
        assert q == r.0;
      }
    }
  }

  /** The only image one write records is the image it was given, under its target. */
  lemma WriteSavesImage(present: bool, yes: bool, fails: bool, target: string,
                        format: ImageExtension, image: Image)
    ensures var w := WriteEvents(present, yes, fails, target, format, image);
      forall j :: 0 <= j < |w| && w[j].Save? ==> w[j] == Save(target, format, image)
  {
  }

  /** Once a face's write has thrown the loop is over: later iterations change nothing,
      so the faces after it are never attempted. */
  lemma {:induction false} FailureSkipsRemainingFaces(p: Pipeline, o: Oracles, targets: seq<string>, images: seq<Image>,
                                                     format: ImageExtension, k: nat, n: nat)
    requires k <= n <= |targets| && n <= |images|
    requires !SaveFaces(p, o, targets, images, format, k).1
    ensures var r := SaveFaces(p, o, targets, images, format, k);
      SaveFaces(p, o, targets, images, format, n).0 == r.0 && !SaveFaces(p, o, targets, images, format, n).1
    decreases n
  {
    if n > k {
      FailureSkipsRemainingFaces(p, o, targets, images, format, k, n - 1);
    }
  }

  /** ConvertTextureCubeToPng: stage, decode, allocate the face texture on the device
      (which throws when there is none), then the loop over the six faces. */
  function ConvertTextureCube(p: Pipeline, o: Oracles, baseDir: string, format: ImageExtension,
                              deviceReady: bool, file: string): (r: Pipeline)
    ensures p.paths <= r.paths
  {
    match Stage(p, o, baseDir, file)
    case None => p
    case Some(p1) =>
      var copy := StagedPath(baseDir, file);
      var p2 := p1.(trace := p1.trace + [Load(copy)]);
      match o.loadCube(copy)
      case None => p2
      case Some(size) =>
        if !deviceReady then p2
        else SaveFaces(p2, o, FaceTargets(file, format, 6), FaceImages(o, copy, size), format, 6).0
  }

  /** A cube texture, staging: as for a single texture. */
  lemma CubeStaging(p: Pipeline, o: Oracles, baseDir: string, format: ImageExtension,
                    deviceReady: bool, file: string)
    ensures var r := ConvertTextureCube(p, o, baseDir, format, deviceReady, file);
      var copy := StagedPath(baseDir, file);
      var staged := copy !in p.paths && !o.copyFails(file);
      && Extends(p, r)
      && (StagedExist(p) ==> StagedExist(r))
      && (!staged ==> r == p)
      && (staged ==> r.staged == p.staged + [copy] && |r.trace| > |p.trace| && r.trace[|p.trace|] == Load(copy))
  {
    var copy := StagedPath(baseDir, file);
    if copy !in p.paths && !o.copyFails(file) {
      var p1 := Stage(p, o, baseDir, file).value;
      var p2 := p1.(trace := p1.trace + [Load(copy)]);
      assert Extends(p, p2);
      if o.loadCube(copy).Some? && deviceReady {
        FacesExtend(p2, o, FaceTargets(file, format, 6), FaceImages(o, copy, o.loadCube(copy).value), format, 6);
        ExtendsTransitive(p, p2, ConvertTextureCube(p, o, baseDir, format, deviceReady, file));
      }
    }
  }

  /** A cube texture, outputs: when it decodes on a live device the targets probed
      are those of faces 0 .. m - 1 in order, at most six, and all six unless the
      write of face m - 1 threw, which is then the last event; when it does not,
      none. */
  lemma CubeTargets(p: Pipeline, o: Oracles, baseDir: string, format: ImageExtension,
                    deviceReady: bool, file: string)
    ensures var copy := StagedPath(baseDir, file);
      CubeProbes(p, ConvertTextureCube(p, o, baseDir, format, deviceReady, file), o, FaceTargets(file, format, 6),
                 copy !in p.paths && !o.copyFails(file) && o.loadCube(copy).Some? && deviceReady)
  {
    var copy := StagedPath(baseDir, file);
    var targets := FaceTargets(file, format, 6);
    var r := ConvertTextureCube(p, o, baseDir, format, deviceReady, file);
    if copy !in p.paths && !o.copyFails(file) {
      var p1 := Stage(p, o, baseDir, file).value;
      var p2 := p1.(trace := p1.trace + [Load(copy)]);
      TargetsAppend(p1.trace, [Load(copy)]);
      TargetsOfSingle(Load(copy));
      assert Targets(p2.trace) == Targets(p.trace);
      if o.loadCube(copy).Some? && deviceReady {
        var images := FaceImages(o, copy, o.loadCube(copy).value);
        var faces := SaveFaces(p2, o, targets, images, format, 6);
        assert r == faces.0;
        FacesInOrder(p2, o, targets, images, format, 6);
        if !faces.1 {
          FacesFailure(p2, o, targets, images, format, 6);
        }
        FacesOutcome(p, p2, faces, o, targets);
      } else {
        assert r == p2;
        NoFacesRun(p, r, o, targets);
      }
    } else {
      assert r == p;
      NoFacesRun(p, r, o, targets);
    }
  }

  /** What a cube's face loop probed, seen from `p` before staging: m targets, the
      first m of `targets` in order, m at most six; none unless the loop ran; and when
      it ran, all six unless the write of face m - 1 threw, as the last event. */
  predicate CubeProbes(p: Pipeline, r: Pipeline, o: Oracles, targets: seq<string>, ran: bool)
    requires |targets| == 6
  {
    var m := |Targets(r.trace)| - |Targets(p.trace)|;
    && 0 <= m <= 6
    && Targets(r.trace) == Targets(p.trace) + targets[..m]
    && (m > 0 ==> ran)
    && (ran ==>
          || m == 6
          || (&& 0 < m
              && o.createFails(targets[m - 1])
              && |r.trace| > 0 && r.trace[|r.trace| - 1] == SaveFailed(targets[m - 1])))
  }

  /** A cube whose loop did not run probed nothing. */
  lemma NoFacesRun(p: Pipeline, r: Pipeline, o: Oracles, targets: seq<string>)
    requires |targets| == 6 && Targets(r.trace) == Targets(p.trace)
    ensures CubeProbes(p, r, o, targets, false)
  {
    assert targets[..0] == [];
  }

  /** The face loop's result seen from before staging, whose probed targets are those
      at the start of the loop. */
  lemma FacesOutcome(p: Pipeline, p2: Pipeline, faces: (Pipeline, bool), o: Oracles, targets: seq<string>)
    requires |targets| == 6 && Targets(p2.trace) == Targets(p.trace)
    requires InOrder(p2, faces, targets, 6)
    requires !faces.1 ==> FailedAt(p2, faces.0, o, targets, 6)
    ensures CubeProbes(p, faces.0, o, targets, true)
  {
  }

  /** A cube that is staged but does not decode, or finds no device, is skipped after
      the load: only the staged copy is added and listed, and nothing is written. */
  lemma CubeWithoutImageWritesNothing(p: Pipeline, o: Oracles, baseDir: string, format: ImageExtension,
                                      deviceReady: bool, file: string)
    requires StagedPath(baseDir, file) !in p.paths && !o.copyFails(file)
    requires o.loadCube(StagedPath(baseDir, file)).None? || !deviceReady
    ensures var r := ConvertTextureCube(p, o, baseDir, format, deviceReady, file);
      var copy := StagedPath(baseDir, file);
      r == Pipeline(p.paths + {copy}, p.trace + [Load(copy)], p.staged + [copy])
  {
  }

  /** Every image a cube writes is face k of the decoded cube (`size` by `size`
      pixels, as GetData hands them back), written in the configured format to the
      file of face k. */
  lemma CubeImages(p: Pipeline, o: Oracles, baseDir: string, format: ImageExtension,
                   deviceReady: bool, file: string)
    ensures var r := ConvertTextureCube(p, o, baseDir, format, deviceReady, file);
      var copy := StagedPath(baseDir, file);
      forall i :: |p.trace| <= i < |r.trace| && r.trace[i].Save? ==>
        && o.loadCube(copy).Some?
        && exists k :: 0 <= k < 6 &&
             r.trace[i] == Save(FaceTarget(file, k, format), format, FaceImage(o, copy, o.loadCube(copy).value, k))
  {
    var copy := StagedPath(baseDir, file);
    var r := ConvertTextureCube(p, o, baseDir, format, deviceReady, file);
    CubeStaging(p, o, baseDir, format, deviceReady, file);
    if copy !in p.paths && !o.copyFails(file) && o.loadCube(copy).Some? && deviceReady {
      var size := o.loadCube(copy).value;
      var targets, images := FaceTargets(file, format, 6), FaceImages(o, copy, size);
      var p1 := Stage(p, o, baseDir, file).value;
      var p2 := p1.(trace := p1.trace + [Load(copy)]);
      assert r == SaveFaces(p2, o, targets, images, format, 6).0;
      FacesImages(p2, o, targets, images, format, 6);
      forall i | |p.trace| <= i < |r.trace| && r.trace[i].Save?
        ensures exists k :: 0 <= k < 6 && r.trace[i] == Save(FaceTarget(file, k, format), format, FaceImage(o, copy, size, k))
      {
        assert i != |p.trace|;
        var k :| 0 <= k < 6 && r.trace[i] == Save(targets[k], format, images[k]);
        assert targets[k] == FaceTarget(file, k, format) && images[k] == FaceImage(o, copy, size, k);
      }
    } else if copy !in p.paths && !o.copyFails(file) {
      assert r.trace == p.trace + [Load(copy)];
    }
  }

  /** The six faces of a cube all have the cube's edge size. */
  lemma FaceImagesSized(o: Oracles, copy: string, size: Size)
    ensures forall im :: im in FaceImages(o, copy, size) ==>
      im.width == size && im.height == size && |im.pixels| == size * size
  {
    var images := FaceImages(o, copy, size);
    forall im | im in images
      ensures im.width == size && im.height == size && |im.pixels| == size * size
    {
      var face :| 0 <= face < 6 && images[face] == im;
      assert im == FaceImage(o, copy, size, face);
    }
  }

  // ---------------------------------------------------------------------------
  // The loop over the entries (Extractor.cs lines 42-76)
  // ---------------------------------------------------------------------------

  /** One entry: the path must be one FileInfo accepts; the entry is then skipped
      unless it exists and has the ".xnb" extension, in any case, and otherwise routed
      by its own declared kind. */
  function ConvertEntry(p: Pipeline, o: Oracles, baseDir: string, format: ImageExtension,
                        deviceReady: bool, e: Entry): (r: EntryResult)
    ensures r.Throws? <==>
      FileInfoRejects(o, e.path) || (e.path in p.paths && HasXnbExtension(e.path) && e.kind == MusicOrSound)
    ensures r.Throws? ==> (r.error == InvalidPath <==> FileInfoRejects(o, e.path))
    ensures !FileInfoRejects(o, e.path) && (e.path !in p.paths || !HasXnbExtension(e.path)) ==> r == Converted(p)
  {
    if FileInfoRejects(o, e.path) then Throws(InvalidPath)
    else if e.path !in p.paths then Converted(p)
    else if !HasXnbExtension(e.path) then Converted(p)
    else match e.kind
      case Texture2D => Converted(ConvertTexture2D(p, o, baseDir, format, e.path))
      case TextureCube => Converted(ConvertTextureCube(p, o, baseDir, format, deviceReady, e.path))
      case MusicOrSound => Throws(NotImplemented)
  }

  /** Whatever an entry does, the world only grows, and every staged copy listed for
      deletion exists and is the staged path of that entry. */
  lemma EntryEffect(p: Pipeline, o: Oracles, baseDir: string, format: ImageExtension,
                    deviceReady: bool, e: Entry)
    requires ConvertEntry(p, o, baseDir, format, deviceReady, e).Converted?
    ensures var r := ConvertEntry(p, o, baseDir, format, deviceReady, e).next;
      && Extends(p, r)
      && (StagedExist(p) ==> StagedExist(r))
      && |r.staged| <= |p.staged| + 1
      && (|r.staged| > |p.staged| ==> r.staged[|p.staged|] == StagedPath(baseDir, e.path))
  {
    if e.path in p.paths && HasXnbExtension(e.path) {
      if e.kind == Texture2D {
        Texture2DStaging(p, o, baseDir, format, e.path);
      } else {
        CubeStaging(p, o, baseDir, format, deviceReady, e.path);
      }
    }
  }

  /** An input whose name holds no lower-case ".xnb" (such as "A.XNB") passes the
      extension test, but its target is the input path itself: once it has been
      staged and decoded, the user is asked whether to replace the input, and the
      input is overwritten with the image exactly when the answer is Yes. */
  lemma SelfTargetAsksToReplaceInput(p: Pipeline, o: Oracles, baseDir: string, format: ImageExtension,
                                     deviceReady: bool, e: Entry)
    requires e.kind == Texture2D && e.path in p.paths && HasXnbExtension(e.path) && !Occurs(e.path, Xnb)
    requires !o.pathRejected(e.path)
    requires StagedPath(baseDir, e.path) !in p.paths && !o.copyFails(e.path)
    requires o.loadTexture(StagedPath(baseDir, e.path)).Some?
    ensures ConvertEntry(p, o, baseDir, format, deviceReady, e).Converted?
    ensures var r := ConvertEntry(p, o, baseDir, format, deviceReady, e).next;
      && |r.trace| > |p.trace|
      && Asked(r.trace[|p.trace| + 1..], e.path)
      && (Saved(r.trace[|p.trace| + 1..], e.path) <==> o.confirm(e.path) && !o.createFails(e.path))
  {
    var copy := StagedPath(baseDir, e.path);
    var p1 := Stage(p, o, baseDir, e.path).value;
    var p2 := p1.(trace := p1.trace + [Load(copy)]);
    TextureTargetIsInputIff(e.path, format);
    OverwriteRule(p2, o, e.path, format, o.loadTexture(copy).value);
    WriteWithConfirmSteps(p2, o, e.path, format, o.loadTexture(copy).value);
  }

  /** "A.XNB" is such an input. */
  lemma UpperCaseNameIsItsOwnTarget(format: ImageExtension)
    ensures HasXnbExtension("A.XNB") && !Occurs("A.XNB", Xnb)
    ensures TextureTarget("A.XNB", format) == "A.XNB"
  {
    var s := "A.XNB";
    XnbExtensionIsSuffix(s);
    assert s[1..] == ".XNB";
    assert ToLower(".XNB") == Xnb;
    assert !Occurs(s[4..], Xnb);
    assert !Occurs(s[3..], Xnb);
    assert !Occurs(s[2..], Xnb);
    assert s[1..5] == ".XNB" && s[1..][..4] != Xnb;
    assert !Occurs(s[1..], Xnb);
    assert s[..4] != Xnb;
    TextureTargetIsInputIff(s, format);
  }

  /** The first `n` iterations of the loop over `files`. */
  function ConvertFiles(p: Pipeline, o: Oracles, baseDir: string, format: ImageExtension,
                        deviceReady: bool, files: seq<Entry>, n: nat): (r: (Pipeline, Outcome))
    requires n <= |files|
    ensures r.1.Threw? ==> r.1.index < n
  {
    if n == 0 then (p, Completed)
    else
      var r := ConvertFiles(p, o, baseDir, format, deviceReady, files, n - 1);
      if r.1.Threw? then r
      else match ConvertEntry(r.0, o, baseDir, format, deviceReady, files[n - 1])
        case Throws(error) => (r.0, Threw(n - 1, error))
        case Converted(q) => (q, Completed)
  }

  /** One more iteration of a loop that has not stopped converts the next entry. */
  lemma LoopStep(p: Pipeline, o: Oracles, baseDir: string, format: ImageExtension,
                 deviceReady: bool, files: seq<Entry>, i: nat)
    requires i < |files| && ConvertFiles(p, o, baseDir, format, deviceReady, files, i).1 == Completed
    ensures var q := ConvertFiles(p, o, baseDir, format, deviceReady, files, i).0;
      var e := ConvertEntry(q, o, baseDir, format, deviceReady, files[i]);
      var r := ConvertFiles(p, o, baseDir, format, deviceReady, files, i + 1);
      && (e.Converted? ==> r.0 == e.next && r.1 == Completed)
      && (e.Throws? ==> r.0 == q && r.1 == Threw(i, e.error))
  {
  }

  /** Over a whole run the world only grows, and the staged copies listed for deletion
      all exist and are never taken off the list. */
  lemma {:induction false} RunExtends(p: Pipeline, o: Oracles, baseDir: string, format: ImageExtension,
                                      deviceReady: bool, files: seq<Entry>, n: nat)
    requires n <= |files|
    ensures var r := ConvertFiles(p, o, baseDir, format, deviceReady, files, n).0;
      Extends(p, r) && (StagedExist(p) ==> StagedExist(r))
  {
    if n > 0 {
      RunExtends(p, o, baseDir, format, deviceReady, files, n - 1);
      var r := ConvertFiles(p, o, baseDir, format, deviceReady, files, n - 1);
      var e := ConvertEntry(r.0, o, baseDir, format, deviceReady, files[n - 1]);
      if r.1.Completed? && e.Converted? {
        EntryEffect(r.0, o, baseDir, format, deviceReady, files[n - 1]);
        ExtendsTransitive(p, r.0, e.next);
      }
    }
  }

  /** Every copy a run lists for deletion is the staged path of one of its entries. */
  lemma {:induction false} RunStagesOnlyInputs(p: Pipeline, o: Oracles, baseDir: string, format: ImageExtension,
                                               deviceReady: bool, files: seq<Entry>, n: nat)
    requires n <= |files|
    ensures var r := ConvertFiles(p, o, baseDir, format, deviceReady, files, n).0;
      && |p.staged| <= |r.staged|
      && forall j :: |p.staged| <= j < |r.staged| ==>
           exists i :: 0 <= i < n && r.staged[j] == StagedPath(baseDir, files[i].path)
  {
    if n > 0 {
      RunStagesOnlyInputs(p, o, baseDir, format, deviceReady, files, n - 1);
      var q := ConvertFiles(p, o, baseDir, format, deviceReady, files, n - 1);
      var e := ConvertEntry(q.0, o, baseDir, format, deviceReady, files[n - 1]);
      if q.1.Completed? && e.Converted? {
        EntryEffect(q.0, o, baseDir, format, deviceReady, files[n - 1]);
        StagedListGrows(p.staged, q.0.staged, e.next.staged, StagedPath(baseDir, files[n - 1].path), baseDir, files, n);
      }
    }
  }

  /** The inductive step of RunStagesOnlyInputs, over the three deletion lists alone. */
  lemma StagedListGrows(a: seq<string>, b: seq<string>, c: seq<string>, x: string,
                        baseDir: string, files: seq<Entry>, n: nat)
    requires 0 < n <= |files| && x == StagedPath(baseDir, files[n - 1].path)
    requires |a| <= |b| <= |c| <= |b| + 1 && c[..|b|] == b
    requires |c| > |b| ==> c[|b|] == x
    requires forall j :: |a| <= j < |b| ==> exists i :: 0 <= i < n - 1 && b[j] == StagedPath(baseDir, files[i].path)
    ensures forall j :: |a| <= j < |c| ==> exists i :: 0 <= i < n && c[j] == StagedPath(baseDir, files[i].path)
  {
    forall j | |a| <= j < |c|
      ensures exists i :: 0 <= i < n && c[j] == StagedPath(baseDir, files[i].path)
    {
      if j < |b| {
        assert c[j] == b[j];
        var i :| 0 <= i < n - 1 && b[j] == StagedPath(baseDir, files[i].path);
        assert 0 <= i < n && c[j] == StagedPath(baseDir, files[i].path);
      } else {
        assert 0 <= n - 1 < n && c[j] == StagedPath(baseDir, files[n - 1].path);
      }
    }
  }

  /** An exception escaping the loop body ends the loop: the entries before it have
      been handled, and the entry itself either has a path FileInfo refuses
      (InvalidPath) or is an existing ".xnb" file declaring MusicOrSound
      (NotImplemented); no later entry is looked at. */
  lemma {:induction false} ExceptionStopsTheLoop(p: Pipeline, o: Oracles, baseDir: string, format: ImageExtension,
                                                 deviceReady: bool, files: seq<Entry>, n: nat)
    requires n <= |files|
    requires ConvertFiles(p, o, baseDir, format, deviceReady, files, n).1.Threw?
    ensures var out := ConvertFiles(p, o, baseDir, format, deviceReady, files, n).1;
      var k := out.index;
      var before := ConvertFiles(p, o, baseDir, format, deviceReady, files, k);
      && before.1 == Completed
      && (out.error == InvalidPath <==> FileInfoRejects(o, files[k].path))
      && (out.error == NotImplemented ==>
            files[k].kind == MusicOrSound && files[k].path in before.0.paths && HasXnbExtension(files[k].path))
      && ConvertFiles(p, o, baseDir, format, deviceReady, files, n).0 == before.0
  {
    var r := ConvertFiles(p, o, baseDir, format, deviceReady, files, n - 1);
    if r.1.Threw? {
      ExceptionStopsTheLoop(p, o, baseDir, format, deviceReady, files, n - 1);
    }
  }

  /** Once an exception has escaped, later iterations change nothing. */
  lemma {:induction false} StoppedLoopStaysStopped(p: Pipeline, o: Oracles, baseDir: string, format: ImageExtension,
                                                   deviceReady: bool, files: seq<Entry>, k: nat, n: nat)
    requires k <= n <= |files|
    requires ConvertFiles(p, o, baseDir, format, deviceReady, files, k).1.Threw?
    ensures var r := ConvertFiles(p, o, baseDir, format, deviceReady, files, k);
      ConvertFiles(p, o, baseDir, format, deviceReady, files, n).0 == r.0
      && ConvertFiles(p, o, baseDir, format, deviceReady, files, n).1 == r.1
    decreases n
  {
    if n > k {
      StoppedLoopStaysStopped(p, o, baseDir, format, deviceReady, files, k, n - 1);
    }
  }

  /** Failures inside the conversions are isolated per entry: when every path is one
      FileInfo accepts and no entry declares MusicOrSound, the loop always reaches the
      end, whatever the copies, decodes, dialogs and writes do. */
  lemma {:induction false} NoAudioCompletes(p: Pipeline, o: Oracles, baseDir: string, format: ImageExtension,
                                            deviceReady: bool, files: seq<Entry>, n: nat)
    requires n <= |files|
    requires forall i :: 0 <= i < n ==> files[i].kind != MusicOrSound && !FileInfoRejects(o, files[i].path)
    ensures ConvertFiles(p, o, baseDir, format, deviceReady, files, n).1 == Completed
  {
    if n > 0 {
      NoAudioCompletes(p, o, baseDir, format, deviceReady, files, n - 1);
    }
  }

  /** An empty path as the first entry ends the batch before anything is done. */
  lemma EmptyPathEndsTheBatch(p: Pipeline, o: Oracles, baseDir: string, format: ImageExtension,
                              deviceReady: bool, files: seq<Entry>)
    requires |files| > 0 && files[0].path == ""
    ensures ConvertFiles(p, o, baseDir, format, deviceReady, files, |files|).0 == p
    ensures ConvertFiles(p, o, baseDir, format, deviceReady, files, |files|).1 == Threw(0, InvalidPath)
  {
    assert ConvertFiles(p, o, baseDir, format, deviceReady, files, 1) == (p, Threw(0, InvalidPath));
    StoppedLoopStaysStopped(p, o, baseDir, format, deviceReady, files, 1, |files|);
  }
}
