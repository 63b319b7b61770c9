/** Polygon annotations of a Label Studio export turned into mask jobs
    (`convert_label_studio_json_to_masks` in
    convert-labelstudio-outputs/polygon-json-to-png-masks/script.py): which tasks
    get a mask, at what size, with which polygons in pixel coordinates, and under
    which file name. Filling the polygons and writing the PNG are not modelled;
    a mask job carries the zero canvas and the polygons to be filled into it. */
module PolygonMasks {
  import opened Text

  // ---------------------------------------------------------------------
  // Decoded export

  /** A vertex in percent of the image size, as exported. */
  datatype Point = Point(x: real, y: real)

  /** A vertex in pixels. */
  datatype Vertex = Vertex(x: int, y: int)

  /** One annotation result: its `type`, its `original_width` and
      `original_height` when present, and its `value.points`. */
  datatype Result = Result(kind: string, width: Option<int>, height: Option<int>, points: seq<Point>)

  datatype Annotation = Annotation(results: seq<Result>)

  /** A task: its `data.image` ("" when empty, absent or null) and its annotations. */
  datatype Task = Task(image: string, annotations: seq<Annotation>)

  const PolygonLabels: string := "polygonlabels"

  // ---------------------------------------------------------------------
  // Percent to pixel conversion

  /** Python's `int()` on a number: truncation toward zero. */
  function Trunc(r: real): (n: int)
    ensures r >= 0.0 ==> n as real <= r < n as real + 1.0
    ensures r < 0.0 ==> n as real - 1.0 < r <= n as real
  {
    if r >= 0.0 then r.Floor else -((-r).Floor)
  }

  /** `int(p * dim / 100)` */
  function ToPixel(p: real, dim: int): int {
    Trunc(p * dim as real / 100.0)
  }

  /** 0 percent is pixel 0 and 100 percent is the full dimension. */
  lemma PixelEnds(dim: int)
    ensures ToPixel(0.0, dim) == 0
    ensures ToPixel(100.0, dim) == dim
  {
    assert 100.0 * dim as real / 100.0 == dim as real;
  }

  /** Inside the image, a vertex stays within [0, dim]. */
  lemma PixelBounds(p: real, dim: int)
    requires 0.0 <= p <= 100.0 && dim >= 0
    ensures 0 <= ToPixel(p, dim) <= dim
  {
    var d := dim as real;
    assert 0.0 <= p * d <= 100.0 * d;
    var x := p * d / 100.0;
    assert 0.0 <= x <= d;
    assert ToPixel(p, dim) == Trunc(x);
  }

  /** Truncation keeps the order of vertices along an axis. */
  lemma PixelMonotone(p: real, q: real, dim: int)
    requires 0.0 <= p <= q && dim >= 0
    ensures ToPixel(p, dim) <= ToPixel(q, dim)
  {
    var d := dim as real;
    assert (q - p) * d >= 0.0;
    assert p * d / 100.0 <= q * d / 100.0;
  }

  /** The pixel polygon of a result: one vertex per point, in order. */
  function Converted(points: seq<Point>, width: int, height: int): (vs: seq<Vertex>)
    ensures |vs| == |points|
    ensures forall i :: 0 <= i < |points| ==>
              vs[i] == Vertex(ToPixel(points[i].x, width), ToPixel(points[i].y, height))
  {
    seq(|points|, i requires 0 <= i < |points| =>
      Vertex(ToPixel(points[i].x, width), ToPixel(points[i].y, height)))
  }

  /** The point conversion loop. */
  method ConvertPoints(points: seq<Point>, width: int, height: int) returns (vs: seq<Vertex>)
    ensures |vs| == |points|
    ensures forall i :: 0 <= i < |points| ==>
              vs[i] == Vertex(ToPixel(points[i].x, width), ToPixel(points[i].y, height))
  {
    vs := [];
    var i := 0;
    while i < |points|
      invariant 0 <= i <= |points| && |vs| == i
      invariant forall j :: 0 <= j < i ==>
                  vs[j] == Vertex(ToPixel(points[j].x, width), ToPixel(points[j].y, height))
    {
      var v := PixelOf(points[i], width, height);
      vs := vs + [v];
      i := i + 1;
    }
  }

  /** The body of the point conversion loop: one point to its pixel vertex. */
  method PixelOf(p: Point, width: int, height: int) returns (v: Vertex)
    ensures v == Vertex(ToPixel(p.x, width), ToPixel(p.y, height))
  {
    var xPixel := Trunc(p.x * width as real / 100.0);
    var yPixel := Trunc(p.y * height as real / 100.0);
    v := Vertex(xPixel, yPixel);
  }

  // ---------------------------------------------------------------------
  // Scanning the results of a task

  /** The loop state: the dimensions last read and the polygons collected. */
  datatype Scan = Scan(width: Option<int>, height: Option<int>, polygons: seq<seq<Vertex>>)

  const Start: Scan := Scan(None, None, [])

  /** One result: a polygon result sets both dimensions, present or not, and
      contributes its polygon only when both are present. */
  function ScanStep(st: Scan, r: Result): Scan {
    if r.kind != PolygonLabels then st
    else if r.width.None? || r.height.None? then Scan(r.width, r.height, st.polygons)
    else Scan(r.width, r.height, st.polygons + [Converted(r.points, r.width.value, r.height.value)])
  }

  function ScanResults(st: Scan, rs: seq<Result>): Scan
    decreases |rs|
  {
    if rs == [] then st else ScanStep(ScanResults(st, rs[..|rs| - 1]), rs[|rs| - 1])
  }

  /** The state after the nested loops have seen annotations. */
  function ScanAll(annotations: seq<Annotation>): Scan
    decreases |annotations|
  {
    if annotations == [] then Start
    else ScanResults(ScanAll(annotations[..|annotations| - 1]), annotations[|annotations| - 1].results)
  }

  /** The results of all annotations, in order. */
  function Flatten(annotations: seq<Annotation>): seq<Result>
    decreases |annotations|
  {
    if annotations == [] then []
    else Flatten(annotations[..|annotations| - 1]) + annotations[|annotations| - 1].results
  }

  /** Results that contribute a polygon. */
  predicate Contributes(r: Result) {
    r.kind == PolygonLabels && r.width.Some? && r.height.Some?
  }

  /** The polygons of the contributing results, in order. */
  function Contributions(rs: seq<Result>): seq<seq<Vertex>>
    decreases |rs|
  {
    if rs == [] then []
    else
      var r := rs[|rs| - 1];
      Contributions(rs[..|rs| - 1]) +
        (if Contributes(r) then [Converted(r.points, r.width.value, r.height.value)] else [])
  }

  /** The last polygon result, if any. */
  function LastPolygon(rs: seq<Result>): (o: Option<Result>)
    ensures o.None? <==> forall i :: 0 <= i < |rs| ==> rs[i].kind != PolygonLabels
    ensures o.Some? ==> exists j :: 0 <= j < |rs| && rs[j] == o.value && o.value.kind == PolygonLabels &&
                                   forall k :: j < k < |rs| ==> rs[k].kind != PolygonLabels
  {
    var j := LastPolygonIndex(rs);
    if j < 0 then None else Some(rs[j])
  }

  /** The position of the last polygon result, or -1 when there is none. */
  function LastPolygonIndex(rs: seq<Result>): (j: int)
    ensures -1 <= j < |rs| && (j >= 0 ==> rs[j].kind == PolygonLabels)
    ensures forall k :: j < k < |rs| ==> rs[k].kind != PolygonLabels
    decreases |rs|
  {
    if rs == [] then -1
    else if rs[|rs| - 1].kind == PolygonLabels then |rs| - 1
    else
      var p := rs[..|rs| - 1];
      assert forall i :: 0 <= i < |p| ==> p[i] == rs[i];
      LastPolygonIndex(p)
  }

  lemma {:induction false} ScanResultsAppend(st: Scan, a: seq<Result>, b: seq<Result>)
    ensures ScanResults(st, a + b) == ScanResults(ScanResults(st, a), b)
    decreases |b|
  {
    if b == [] {
      assert a + b == a;
    } else {
      assert (a + b)[..|a + b| - 1] == a + b[..|b| - 1];
      ScanResultsAppend(st, a, b[..|b| - 1]);
    }
  }

  /** The nested loops scan the flattened results. */
  lemma {:induction false} ScanAllIsFlatScan(annotations: seq<Annotation>)
    ensures ScanAll(annotations) == ScanResults(Start, Flatten(annotations))
    decreases |annotations|
  {
    if annotations != [] {
      var p := annotations[..|annotations| - 1];
      ScanAllIsFlatScan(p);
      ScanResultsAppend(Start, Flatten(p), annotations[|annotations| - 1].results);
    }
  }

  /** The polygons collected are those of the contributing results, in order. */
  lemma {:induction false} ScanCollects(st: Scan, rs: seq<Result>)
    ensures ScanResults(st, rs).polygons == st.polygons + Contributions(rs)
    decreases |rs|
  {
    if rs != [] {
      ScanCollects(st, rs[..|rs| - 1]);
    }
  }

  /** The dimensions are those of the last polygon result, whether or not they
      are present; without polygon results they are unchanged. */
  lemma {:induction false} ScanDimensions(st: Scan, rs: seq<Result>)
    ensures var end := ScanResults(st, rs);
            match LastPolygon(rs)
            case None => end.width == st.width && end.height == st.height
            case Some(r) => end.width == r.width && end.height == r.height
    decreases |rs|
  {
    if rs != [] {
      ScanDimensions(st, rs[..|rs| - 1]);
    }
  }

  // ---------------------------------------------------------------------
  // Outcome of a task

  /** An all-zero canvas of `height` rows of `width` cells, as `np.zeros((H, W))`. */
  function Zeros(height: nat, width: nat): (m: seq<seq<int>>)
    ensures |m| == height && forall r :: 0 <= r < height ==> |m[r]| == width && forall c :: 0 <= c < width ==> m[r][c] == 0
  {
    seq(height, r => seq(width, c => 0))
  }

  /** `f"{image_url.split('/')[-1]}_mask.png"` */
  function MaskFilename(url: string): string {
    var parts := Split(url, '/');
    parts[|parts| - 1] + "_mask.png"
  }

  /** The mask is named after the image's file name. */
  lemma MaskFilenameIsBasename(url: string)
    ensures MaskFilename(url) == Basename(url) + "_mask.png"
  {
    LastSplitPartIsBasename(url);
  }

  datatype TaskOutcome =
    | NoImage
    | NoAnnotations
    | NoMask
      // np.zeros refuses a dimension that is None or negative, and cv2.imwrite
      // refuses the empty image a zero dimension gives: the run stops
    | Crash
    | Written(filename: string, canvas: seq<seq<int>>, polygons: seq<seq<Vertex>>)

  /** What the function does with one task. */
  function Outcome(t: Task): TaskOutcome {
    if t.image == [] then NoImage
    else if t.annotations == [] then NoAnnotations
    else
      var st := ScanAll(t.annotations);
      if st.polygons == [] || st.width.None? then NoMask
      else if st.height.None? || st.width.value <= 0 || st.height.value <= 0 then Crash
      else Written(MaskFilename(t.image), Zeros(st.height.value, st.width.value), st.polygons)
  }

  /** A mask is written exactly when the task has an image and annotations, some
      result contributes a polygon and the last polygon result has (positive)
      width and height; it holds every contributed polygon, on a canvas of that
      last result's size, height first. */
  lemma MaskWrittenIff(t: Task)
    ensures var rs := Flatten(t.annotations);
            Outcome(t).Written? <==>
              && t.image != [] && t.annotations != []
              && Contributions(rs) != []
              && LastPolygon(rs).Some?
              && LastPolygon(rs).value.width.Some? && LastPolygon(rs).value.height.Some?
              && LastPolygon(rs).value.width.value > 0 && LastPolygon(rs).value.height.value > 0
    ensures Outcome(t).Written? ==>
              var last := LastPolygon(Flatten(t.annotations)).value;
              && Outcome(t).polygons == Contributions(Flatten(t.annotations))
              && Outcome(t).canvas == Zeros(last.height.value, last.width.value)
              && Outcome(t).filename == Basename(t.image) + "_mask.png"
  {
    var rs := Flatten(t.annotations);
    ScanAllIsFlatScan(t.annotations);
    ScanCollects(Start, rs);
    ScanDimensions(Start, rs);
    MaskFilenameIsBasename(t.image);
    if Contributions(rs) != [] {
      ContributionIsPolygon(rs);
    }
  }

  /** A contributed polygon comes from a polygon result. */
  lemma {:induction false} ContributionIsPolygon(rs: seq<Result>)
    requires Contributions(rs) != []
    ensures LastPolygon(rs).Some?
    decreases |rs|
  {
    var r := rs[|rs| - 1];
    if !Contributes(r) {
      ContributionIsPolygon(rs[..|rs| - 1]);
      var p := rs[..|rs| - 1];
      var j :| 0 <= j < |p| && p[j].kind == PolygonLabels;
      assert rs[j].kind == PolygonLabels;
    }
  }

  /** When the last polygon result lacks its width, polygons collected earlier
      are not drawn. */
  lemma LastWithoutWidthWritesNothing(t: Task, r: Result)
    requires t.image != [] && t.annotations != []
    requires LastPolygon(Flatten(t.annotations)) == Some(r) && r.width.None?
    ensures Outcome(t) == NoMask
  {
    ScanAllIsFlatScan(t.annotations);
    ScanDimensions(Start, Flatten(t.annotations));
  }

  /** Two tasks whose images share a file name write the same mask file. */
  lemma SameImageNameSameMask(a: string, b: string)
    requires Basename(a) == Basename(b)
    ensures MaskFilename(a) == MaskFilename(b)
  {
    MaskFilenameIsBasename(a);
    MaskFilenameIsBasename(b);
  }

  /** The body of the task loop. */
  method ConvertTask(task: Task) returns (o: TaskOutcome)
    ensures o == Outcome(task)
  {
    if task.image == [] {
      return NoImage;
    }
    var annotations := task.annotations;
    if annotations == [] {
      return NoAnnotations;
    }
    var originalWidth: Option<int>, originalHeight: Option<int> := None, None;
    var allPolygons: seq<seq<Vertex>> := [];
    var a := 0;
    while a < |annotations|
      invariant 0 <= a <= |annotations|
      invariant Scan(originalWidth, originalHeight, allPolygons) == ScanAll(annotations[..a])
    {
      var results := annotations[a].results;
      ghost var before := ScanAll(annotations[..a]);
      var r := 0;
      while r < |results|
        invariant 0 <= r <= |results|
        invariant Scan(originalWidth, originalHeight, allPolygons) == ScanResults(before, results[..r])
      {
        var result := results[r];
        assert results[..r + 1][..r] == results[..r];
        if result.kind == PolygonLabels {
          originalWidth := result.width;
          originalHeight := result.height;
          if originalWidth.Some? && originalHeight.Some? {
            var polygonPoints := ConvertPoints(result.points, originalWidth.value, originalHeight.value);
            assert polygonPoints == Converted(result.points, originalWidth.value, originalHeight.value);
            allPolygons := allPolygons + [polygonPoints];
          }
        }
        r := r + 1;
      }
      assert results[..|results|] == results;
      assert annotations[..a + 1][..a] == annotations[..a];
      a := a + 1;
    }
    assert annotations[..|annotations|] == annotations;
    if allPolygons != [] && originalWidth.Some? {
      if originalHeight.None? || originalWidth.value <= 0 || originalHeight.value <= 0 {
        return Crash;
      }
      o := Written(MaskFilename(task.image), Zeros(originalHeight.value, originalWidth.value), allPolygons);
    } else {
      o := NoMask;
    }
  }

  // ---------------------------------------------------------------------
  // The whole export

  /** A mask to be filled and written. */
  datatype MaskJob = MaskJob(canvas: seq<seq<int>>, polygons: seq<seq<Vertex>>)

  /** The masks written, by file name, and whether a task stopped the run. */
  datatype ExportResult = ExportResult(written: map<string, MaskJob>, crashed: bool)

  function ExportStep(e: ExportResult, t: Task): ExportResult {
    if e.crashed then e
    else
      match Outcome(t)
      case Written(name, canvas, polygons) => ExportResult(e.written[name := MaskJob(canvas, polygons)], false)
      case Crash => ExportResult(e.written, true)
      case _ => e
  }

  function ExportAll(tasks: seq<Task>): ExportResult
    decreases |tasks|
  {
    if tasks == [] then ExportResult(map[], false)
    else ExportStep(ExportAll(tasks[..|tasks| - 1]), tasks[|tasks| - 1])
  }

  /** Task i is the last task that writes a mask named name. */
  ghost predicate LastWrittenAt(tasks: seq<Task>, name: string, i: int) {
    && 0 <= i < |tasks| && Outcome(tasks[i]).Written? && Outcome(tasks[i]).filename == name
    && forall j :: i < j < |tasks| ==> !(Outcome(tasks[j]).Written? && Outcome(tasks[j]).filename == name)
  }

  /** Without a crashing task, a file is written for exactly the tasks with a
      mask, and each file holds the mask of the last task with that name: a later
      task overwrites an earlier one. */
  lemma {:induction false} ExportWrites(tasks: seq<Task>)
    requires forall i :: 0 <= i < |tasks| ==> !Outcome(tasks[i]).Crash?
    ensures !ExportAll(tasks).crashed
    ensures forall i :: 0 <= i < |tasks| && Outcome(tasks[i]).Written? ==>
              Outcome(tasks[i]).filename in ExportAll(tasks).written
    ensures forall name :: name in ExportAll(tasks).written ==>
              exists i :: LastWrittenAt(tasks, name, i) &&
                          ExportAll(tasks).written[name] == MaskJob(Outcome(tasks[i]).canvas, Outcome(tasks[i]).polygons)
    decreases |tasks|
  {
    if tasks != [] {
      var p, t := tasks[..|tasks| - 1], tasks[|tasks| - 1];
      assert forall i :: 0 <= i < |p| ==> p[i] == tasks[i];
      ExportWrites(p);
      var e := ExportAll(p);
      ExportStepFacts(e, t);
      forall name | name in ExportAll(tasks).written
        ensures exists i :: LastWrittenAt(tasks, name, i) &&
                            ExportAll(tasks).written[name] == MaskJob(Outcome(tasks[i]).canvas, Outcome(tasks[i]).polygons)
      {
        if Outcome(t).Written? && Outcome(t).filename == name {
          assert LastWrittenAt(tasks, name, |tasks| - 1);
        } else {
          var i :| LastWrittenAt(p, name, i) &&
                   e.written[name] == MaskJob(Outcome(p[i]).canvas, Outcome(p[i]).polygons);
          KeepsLastWritten(tasks, name, i);
        }
      }
    }
  }

  /** A task that writes no mask named name leaves the last one that does last. */
  lemma KeepsLastWritten(tasks: seq<Task>, name: string, i: int)
    requires tasks != [] && LastWrittenAt(tasks[..|tasks| - 1], name, i)
    requires var t := tasks[|tasks| - 1]; !(Outcome(t).Written? && Outcome(t).filename == name)
    ensures LastWrittenAt(tasks, name, i)
  {
    var m := |tasks| - 1;
    assert forall j :: 0 <= j < m ==> tasks[..m][j] == tasks[j];
  }

  /** One task of a run that has not crashed, when the task does not crash. */
  lemma ExportStepFacts(e: ExportResult, t: Task)
    requires !e.crashed && !Outcome(t).Crash?
    ensures !ExportStep(e, t).crashed
    ensures Outcome(t).Written? ==>
              Outcome(t).filename in ExportStep(e, t).written &&
              ExportStep(e, t).written[Outcome(t).filename] == MaskJob(Outcome(t).canvas, Outcome(t).polygons)
    ensures e.written.Keys <= ExportStep(e, t).written.Keys
    ensures forall name :: name in ExportStep(e, t).written && (name !in e.written || ExportStep(e, t).written[name] != e.written[name]) ==>
              Outcome(t).Written? && name == Outcome(t).filename
  {
  }

  /** A crashing task stops the run: later tasks write nothing. */
  lemma {:induction false} CrashStops(tasks: seq<Task>, i: nat)
    requires i < |tasks| && Outcome(tasks[i]).Crash?
    ensures ExportAll(tasks).crashed
    ensures ExportAll(tasks).written == ExportAll(tasks[..i]).written
    decreases |tasks|
  {
    if i < |tasks| - 1 {
      var p := tasks[..|tasks| - 1];
      assert p[i] == tasks[i] && p[..i] == tasks[..i];
      CrashStops(p, i);
    } else {
      assert tasks[..|tasks| - 1] == tasks[..i];
    }
  }

  /** `convert_label_studio_json_to_masks` after the export is decoded. */
  method ConvertLabelStudioJsonToMasks(tasks: seq<Task>) returns (e: ExportResult)
    ensures e == ExportAll(tasks)
  {
    var written: map<string, MaskJob> := map[];
    var i := 0;
    while i < |tasks|
      invariant 0 <= i <= |tasks|
      invariant ExportAll(tasks[..i]) == ExportResult(written, false)
    {
      assert tasks[..i + 1][..i] == tasks[..i];
      var o := ConvertTask(tasks[i]);
      if o.Crash? {
        CrashStops(tasks, i);
        return ExportResult(written, true);
      }
      if o.Written? {
        written := written[o.filename := MaskJob(o.canvas, o.polygons)];
      }
      i := i + 1;
    }
    assert tasks[..|tasks|] == tasks;
    e := ExportResult(written, false);
  }
}
