/**
 * The background video worker.  Each pass of its endless loop takes the first job whose
 * status is `QUEUED`, commits `PROCESSING`, runs every frame of the capture through the
 * detector and the (global, never reset) tracker, writes the annotated frames out, and
 * commits `COMPLETED`.  An exception after the `PROCESSING` commit is handled by a
 * rollback that has nothing left to undo, so the job stays `PROCESSING` for good.
 *
 * The detector is an oracle from a frame to its scored boxes.  The tracker is a function
 * from the whole history of its `update` inputs to the objects the latest call reports,
 * which is how an abstract stateful tracker looks from outside.  The capture is a finite
 * sequence of frames, and where an exception strikes is a parameter of each pass.
 */
module VideoWorker {
  import opened Wrappers
  import opened ProcessingQueueModel

  /** Detections with a score strictly above this are kept. */
  const SCORE_THRESHOLD: real := 0.97

  /** Half the side of the box drawn around an object that has no detection data. */
  const FALLBACK_HALF_SIDE: real := 20.0

  /** A box as the detector reports it: (x1, y1, x2, y2). */
  datatype Box = Box(x1: real, y1: real, x2: real, y2: real)

  datatype Point = Point(x: real, y: real)

  /** One row of the detector's output: a box, its score and its class label. */
  datatype Candidate = Candidate(box: Box, score: real, category: int)

  /** What is handed to the tracker: the anchor point, the score and the box as data. */
  datatype Detection = Detection(point: Point, score: real, data: Box)

  /** What the tracker reports: an id, the data of its last detection if any, its estimate. */
  datatype TrackedObject = TrackedObject(id: int, lastData: Option<Box>, estimate: Point)

  /** The rectangle drawn for an object and the point its `Sheep #id` label is placed at. */
  datatype Mark = Mark(id: int, box: Box, centre: Point)

  /** A decoded frame; its pixels are not interpreted. */
  type Frame = seq<int>

  /** A frame as written to the output video, with the marks drawn on it. */
  datatype OutFrame = OutFrame(frame: Frame, marks: seq<Mark>)

  // ---------------------------------------------------------------------------------
  // Per-frame bookkeeping
  // ---------------------------------------------------------------------------------

  /** The centre of a box, equally far from both of its sides on each axis. */
  function Centre(b: Box): (p: Point)
    ensures p.x - b.x1 == b.x2 - p.x && p.y - b.y1 == b.y2 - p.y
  {
    Point((b.x1 + b.x2) / 2.0, (b.y1 + b.y2) / 2.0)
  }

  predicate Kept(c: Candidate) {
    c.score > SCORE_THRESHOLD
  }

  function ToDetection(c: Candidate): Detection {
    Detection(Centre(c.box), c.score, c.box)
  }

  /**
   * The detections built from a frame's candidates: those scoring above the threshold,
   * anchored at their box centres, in detector order.
   */
  function KeptDetections(cands: seq<Candidate>): (ds: seq<Detection>)
    ensures |ds| <= |cands|
    decreases |cands|
  {
    if cands == [] then []
    else
      var init, last := cands[..|cands| - 1], cands[|cands| - 1];
      KeptDetections(init) + (if Kept(last) then [ToDetection(last)] else [])
  }

  /**
   * Every detection scores above the threshold and is anchored at its box centre; each
   * comes from a kept candidate, and every kept candidate gives one.
   */
  lemma {:induction false} KeptDetectionsMembers(cands: seq<Candidate>)
    ensures var ds := KeptDetections(cands);
      && (forall d :: d in ds ==> d.score > SCORE_THRESHOLD && d.point == Centre(d.data))
      && (forall d :: d in ds ==> exists c :: c in cands && Kept(c) && d == ToDetection(c))
      && (forall c :: c in cands && Kept(c) ==> ToDetection(c) in ds)
    decreases |cands|
  {
    if cands != [] {
      var init, last := cands[..|cands| - 1], cands[|cands| - 1];
      KeptDetectionsMembers(init);
      assert cands == init + [last];
      var ds := KeptDetections(cands);
      var tail := if Kept(last) then [ToDetection(last)] else [];
      assert ds == KeptDetections(init) + tail;
      forall d | d in ds
        ensures exists c :: c in cands && Kept(c) && d == ToDetection(c)
      {
        if d in KeptDetections(init) {
          var c :| c in init && Kept(c) && d == ToDetection(c);
          assert c in cands;
        } else {
          assert last in cands;
        }
      }
    }
  }

  /** Filtering works candidate by candidate, so the order of the detector is kept. */
  lemma {:induction false} KeptDetectionsAppend(a: seq<Candidate>, b: seq<Candidate>)
    ensures KeptDetections(a + b) == KeptDetections(a) + KeptDetections(b)
    decreases |b|
  {
    if b == [] {
      assert a + b == a;
    } else {
      var init := b[..|b| - 1];
      assert (a + b)[..|a + b| - 1] == a + init;
      assert (a + b)[|a + b| - 1] == b[|b| - 1];
      KeptDetectionsAppend(a, init);
    }
  }

  /** When every score clears the threshold, every candidate becomes a detection, in order. */
  lemma {:induction false} AllKeptWhenAllAbove(cands: seq<Candidate>)
    requires forall i :: 0 <= i < |cands| ==> Kept(cands[i])
    ensures |KeptDetections(cands)| == |cands|
    ensures forall i :: 0 <= i < |cands| ==> KeptDetections(cands)[i] == ToDetection(cands[i])
    decreases |cands|
  {
    if cands != [] {
      var init, last := cands[..|cands| - 1], cands[|cands| - 1];
      AllKeptWhenAllAbove(init);
      var r := KeptDetections(cands);
      assert r == KeptDetections(init) + [ToDetection(last)];
      forall i | 0 <= i < |cands|
        ensures r[i] == ToDetection(cands[i])
      {
        if i < |init| {
          assert r[i] == KeptDetections(init)[i] && cands[i] == init[i];
        }
      }
    }
  }

  /** The `for box, score, label in zip(...)` loop that builds the detection list. */
  method BuildDetections(cands: seq<Candidate>) returns (detections: seq<Detection>)
    ensures detections == KeptDetections(cands)
  {
    detections := [];
    var i := 0;
    while i < |cands|
      invariant 0 <= i <= |cands|
      invariant detections == KeptDetections(cands[..i])
    {
      assert cands[..i + 1][..i] == cands[..i];
      var c := cands[i];
      if c.score > SCORE_THRESHOLD {
        detections := detections + [Detection(Centre(c.box), c.score, c.box)];
      }
      i := i + 1;
    }
    assert cands[..i] == cands;
  }

  /**
   * The rectangle drawn for an object: its last detection's box, or a square of half-side
   * 20 around its estimate when it has none.
   */
  function DrawnBox(o: TrackedObject): (b: Box)
    ensures o.lastData.Some? ==> b == o.lastData.value
    ensures o.lastData.None? ==> Centre(b) == o.estimate
    ensures o.lastData.None? ==>
      b.x2 - b.x1 == 2.0 * FALLBACK_HALF_SIDE && b.y2 - b.y1 == 2.0 * FALLBACK_HALF_SIDE
  {
    match o.lastData
    case Some(box) => box
    case None =>
      var c := o.estimate;
      Box(c.x - FALLBACK_HALF_SIDE, c.y - FALLBACK_HALF_SIDE, c.x + FALLBACK_HALF_SIDE, c.y + FALLBACK_HALF_SIDE)
  }

  /**
   * The mark for an object: labelled with its id, the box of its last detection (centred
   * on that box) or, with no detection, a box and label centred on its estimate.
   */
  function MarkOf(o: TrackedObject): (m: Mark)
    ensures m.id == o.id
    ensures o.lastData.Some? ==> m.box == o.lastData.value && m.centre == Centre(o.lastData.value)
    ensures o.lastData.None? ==> m.centre == o.estimate && Centre(m.box) == o.estimate
  {
    Mark(o.id, DrawnBox(o), Centre(DrawnBox(o)))
  }

  /** The marks drawn for a list of objects, one per object in order. */
  function MarksOf(objs: seq<TrackedObject>): (marks: seq<Mark>)
    ensures |marks| == |objs|
  {
    seq(|objs|, k requires 0 <= k < |objs| => MarkOf(objs[k]))
  }

  /** The ids of a list of tracked objects. */
  function IdsOf(objs: seq<TrackedObject>): set<int> {
    set j | 0 <= j < |objs| :: objs[j].id
  }

  /**
   * The `for obj in tracked_objects` loop: adds every id to the running set and draws
   * one mark per object, in the tracker's order.
   */
  method DrawObjects(ids: set<int>, objs: seq<TrackedObject>) returns (ids': set<int>, marks: seq<Mark>)
    ensures ids' == ids + IdsOf(objs)
    ensures |marks| == |objs| && forall j :: 0 <= j < |objs| ==> marks[j] == MarkOf(objs[j])
  {
    ids', marks := ids, [];
    var i := 0;
    while i < |objs|
      invariant 0 <= i <= |objs|
      invariant ids' == ids + (set j | 0 <= j < i :: objs[j].id)
      invariant |marks| == i && forall j :: 0 <= j < i ==> marks[j] == MarkOf(objs[j])
    {
      var obj := objs[i];
      ids' := ids' + {obj.id};
      var box := DrawnBox(obj);
      marks := marks + [Mark(obj.id, box, Centre(box))];
      i := i + 1;
    }
  }

  /** The list handed to the tracker for each frame of a capture. */
  function FrameUpdates(detect: Frame -> seq<Candidate>, frames: seq<Frame>): (u: seq<seq<Detection>>)
    ensures |u| == |frames|
  {
    seq(|frames|, j requires 0 <= j < |frames| => KeptDetections(detect(frames[j])))
  }

  /** What the tracker reports on the frame that makes its history `log + u[..j + 1]`. */
  function ReportedAt(track: seq<seq<Detection>> -> seq<TrackedObject>, log: seq<seq<Detection>>,
                      u: seq<seq<Detection>>, j: nat): seq<TrackedObject>
    requires j < |u|
  {
    track(log + u[..j + 1])
  }

  /** The ids reported on the first `n` frames of a pass. */
  function SeenIds(track: seq<seq<Detection>> -> seq<TrackedObject>, log: seq<seq<Detection>>,
                   u: seq<seq<Detection>>, n: nat): set<int>
    requires n <= |u|
  {
    if n == 0 then {} else SeenIds(track, log, u, n - 1) + IdsOf(ReportedAt(track, log, u, n - 1))
  }

  /** An id is seen exactly when some object with that id is reported on some frame. */
  lemma {:induction false} SeenIdsCharacterized(track: seq<seq<Detection>> -> seq<TrackedObject>,
                                                log: seq<seq<Detection>>, u: seq<seq<Detection>>,
                                                n: nat, id: int)
    requires n <= |u|
    ensures id in SeenIds(track, log, u, n) <==>
      exists j, k :: 0 <= j < n && 0 <= k < |ReportedAt(track, log, u, j)| && ReportedAt(track, log, u, j)[k].id == id
  {
    if n > 0 {
      SeenIdsCharacterized(track, log, u, n - 1, id);
      var objs := ReportedAt(track, log, u, n - 1);
      if id in IdsOf(objs) {
        var k :| 0 <= k < |objs| && objs[k].id == id;
        assert ReportedAt(track, log, u, n - 1)[k].id == id;
      }
    }
  }

  /** The set of ids only grows from frame to frame. */
  lemma {:induction false} SeenIdsGrow(track: seq<seq<Detection>> -> seq<TrackedObject>,
                                       log: seq<seq<Detection>>, u: seq<seq<Detection>>, m: nat, n: nat)
    requires m <= n <= |u|
    ensures SeenIds(track, log, u, m) <= SeenIds(track, log, u, n)
    decreases n - m
  {
    if m < n {
      SeenIdsGrow(track, log, u, m, n - 1);
    }
  }

  /** The j-th frame of the output video. */
  function OutFrameAt(track: seq<seq<Detection>> -> seq<TrackedObject>, log: seq<seq<Detection>>,
                      u: seq<seq<Detection>>, frames: seq<Frame>, j: nat): OutFrame
    requires j < |u| && j < |frames|
  {
    OutFrame(frames[j], MarksOf(ReportedAt(track, log, u, j)))
  }

  /** The first `n` frames of the output video. */
  function OutFrames(track: seq<seq<Detection>> -> seq<TrackedObject>, log: seq<seq<Detection>>,
                     u: seq<seq<Detection>>, frames: seq<Frame>, n: nat): (out: seq<OutFrame>)
    requires n <= |u| && n <= |frames|
    ensures |out| == n && forall j :: 0 <= j < n ==> out[j] == OutFrameAt(track, log, u, frames, j)
  {
    seq(n, j requires 0 <= j < n => OutFrameAt(track, log, u, frames, j))
  }

  lemma OutFramesStep(track: seq<seq<Detection>> -> seq<TrackedObject>, log: seq<seq<Detection>>,
                      u: seq<seq<Detection>>, frames: seq<Frame>, n: nat)
    requires n < |u| && n < |frames|
    ensures OutFrames(track, log, u, frames, n) + [OutFrameAt(track, log, u, frames, n)]
         == OutFrames(track, log, u, frames, n + 1)
  {
  }

  /** One step of the frame loop extends the tracker's inputs by that frame's list. */
  lemma UpdatesPrefix(detect: Frame -> seq<Candidate>, frames: seq<Frame>, log: seq<seq<Detection>>, k: nat)
    requires k < |frames|
    ensures var u := FrameUpdates(detect, frames);
      log + u[..k] + [KeptDetections(detect(frames[k]))] == log + u[..k + 1]
  {
    var u := FrameUpdates(detect, frames);
    assert u[..k + 1] == u[..k] + [u[k]];
  }

  // ---------------------------------------------------------------------------------
  // Job selection and status transitions
  // ---------------------------------------------------------------------------------

  /** `filter_by(status='QUEUED').first()`: the position of the first queued job. */
  function FirstQueued(rows: seq<ProcessingQueue>): (r: Option<nat>)
    ensures r.Some? ==> r.value < |rows| && rows[r.value].status == "QUEUED"
    ensures r.Some? ==> forall j :: 0 <= j < r.value ==> rows[j].status != "QUEUED"
    ensures r.None? ==> forall j :: 0 <= j < |rows| ==> rows[j].status != "QUEUED"
    decreases |rows|
  {
    if rows == [] then None
    else if rows[0].status == "QUEUED" then Some(0)
    else match FirstQueued(rows[1..])
      case None => None
      case Some(k) => Some(k + 1)
  }

  /** Row `i` with its status set to `s`. */
  function WithStatus(rows: seq<ProcessingQueue>, i: nat, s: string): seq<ProcessingQueue>
    requires i < |rows|
  {
    rows[i := rows[i].(status := s)]
  }

  /**
   * The committed rows after one pass: unchanged when nothing is queued; otherwise the
   * first queued job ends `PROCESSING` if the pass crashed after that commit and
   * `COMPLETED` if it did not.
   */
  function NextRows(rows: seq<ProcessingQueue>, crash: bool): (r: seq<ProcessingQueue>)
    ensures |r| == |rows|
    ensures FirstQueued(rows).None? ==> r == rows
    ensures forall j :: 0 <= j < |rows| ==> r[j] == rows[j].(status := r[j].status)
    ensures forall j :: 0 <= j < |rows| ==>
      r[j] == rows[j] || (rows[j].status == "QUEUED" && (r[j].status == "PROCESSING" || r[j].status == "COMPLETED"))
    ensures forall j :: 0 <= j < |rows| && r[j] != rows[j] ==> FirstQueued(rows) == Some(j)
  {
    match FirstQueued(rows)
    case None => rows
    case Some(i) => WithStatus(rows, i, if crash then "PROCESSING" else "COMPLETED")
  }

  /** The committed rows after a run of passes; `crashes[p]` says whether pass p crashed. */
  function RunPasses(rows: seq<ProcessingQueue>, crashes: seq<bool>): (r: seq<ProcessingQueue>)
    ensures |r| == |rows|
  {
    if crashes == [] then rows
    else NextRows(RunPasses(rows, crashes[..|crashes| - 1]), crashes[|crashes| - 1])
  }

  /** The nearest job no later pass touches: a `PROCESSING` job stays so forever. */
  lemma {:induction false} StuckForever(rows: seq<ProcessingQueue>, crashes: seq<bool>, i: nat)
    requires i < |rows| && rows[i].status == "PROCESSING"
    ensures RunPasses(rows, crashes)[i] == rows[i]
    decreases |crashes|
  {
    if crashes != [] {
      StuckForever(rows, crashes[..|crashes| - 1], i);
    }
  }

  /**
   * The defect: a pass that crashes after its `PROCESSING` commit leaves the job in that
   * state, no later pass selects it again, and it never reaches `COMPLETED`.
   */
  lemma CrashedJobStuck(rows: seq<ProcessingQueue>, later: seq<bool>, i: nat)
    requires FirstQueued(rows) == Some(i)
    ensures RunPasses(NextRows(rows, true), later)[i].status == "PROCESSING"
    ensures forall p :: 0 <= p <= |later| ==> FirstQueued(RunPasses(NextRows(rows, true), later[..p])) != Some(i)
  {
    var after := NextRows(rows, true);
    StuckForever(after, later, i);
    forall p | 0 <= p <= |later|
      ensures FirstQueued(RunPasses(after, later[..p])) != Some(i)
    {
      StuckForever(after, later[..p], i);
    }
  }

  /** How many jobs are queued. */
  function CountQueued(rows: seq<ProcessingQueue>): nat {
    if rows == [] then 0 else (if rows[0].status == "QUEUED" then 1 else 0) + CountQueued(rows[1..])
  }

  lemma {:induction false} CountQueuedZero(rows: seq<ProcessingQueue>)
    ensures CountQueued(rows) == 0 <==> FirstQueued(rows).None?
    decreases |rows|
  {
    if rows != [] {
      CountQueuedZero(rows[1..]);
    }
  }

  lemma {:induction false} CountAfterUpdate(rows: seq<ProcessingQueue>, i: nat, s: string)
    requires i < |rows| && rows[i].status == "QUEUED" && s != "QUEUED"
    ensures CountQueued(WithStatus(rows, i, s)) == CountQueued(rows) - 1
    decreases |rows|
  {
    var r := WithStatus(rows, i, s);
    if i == 0 {
      assert r[1..] == rows[1..];
    } else {
      assert r[1..] == WithStatus(rows[1..], i - 1, s);
      CountAfterUpdate(rows[1..], i - 1, s);
    }
  }

  /** Every pass that finds a queued job takes exactly one job off the queue. */
  lemma NextRowsDequeuesOne(rows: seq<ProcessingQueue>, crash: bool)
    ensures CountQueued(NextRows(rows, crash)) == if CountQueued(rows) == 0 then 0 else CountQueued(rows) - 1
  {
    CountQueuedZero(rows);
    match FirstQueued(rows)
    case None =>
    case Some(i) =>
      CountAfterUpdate(rows, i, if crash then "PROCESSING" else "COMPLETED");
  }

  /** The queue drains: after as many passes as there were queued jobs, none is left. */
  lemma {:induction false} QueueDrains(rows: seq<ProcessingQueue>, crashes: seq<bool>)
    ensures CountQueued(RunPasses(rows, crashes)) ==
      if |crashes| >= CountQueued(rows) then 0 else CountQueued(rows) - |crashes|
    ensures |crashes| >= CountQueued(rows) ==> FirstQueued(RunPasses(rows, crashes)).None?
    decreases |crashes|
  {
    if crashes != [] {
      var init := crashes[..|crashes| - 1];
      QueueDrains(rows, init);
      NextRowsDequeuesOne(RunPasses(rows, init), crashes[|crashes| - 1]);
    }
    CountQueuedZero(RunPasses(rows, crashes));
  }

  /**
   * The worker writes `PROCESSING`, a value of the enum, and `COMPLETED`, which is not
   * one: a completed job holds a status `StatusEnum` cannot read back.
   */
  lemma WrittenStatuses(rows: seq<ProcessingQueue>, crash: bool, i: nat)
    requires FirstQueued(rows) == Some(i)
    ensures crash ==> StatusFromValue(NextRows(rows, crash)[i].status) == Some(PROCESSING)
    ensures !crash ==> StatusFromValue(NextRows(rows, crash)[i].status) == None
  {
  }

  /** A pass keeps the table's keys: it changes no id. */
  lemma NextRowsKeepsTableValid(t: Table, crash: bool)
    requires Valid(t)
    ensures Valid(Table(NextRows(t.rows, crash), t.nextId))
  {
    var r := NextRows(t.rows, crash);
    assert forall j :: 0 <= j < |r| ==> r[j].id == t.rows[j].id;
  }

  // ---------------------------------------------------------------------------------
  // One pass and the endless loop
  // ---------------------------------------------------------------------------------

  /** Where an exception strikes: nowhere, at opening the writer, or in the detector on frame `at`. */
  datatype Fault = NoFault | WriterFails | DetectorFails(at: nat)

  /** What one pass meets: the frames the capture yields, whether it opened, and any fault. */
  datatype PassInput = PassInput(frames: seq<Frame>, capOpened: bool, fault: Fault)

  datatype PassOutcome =
    | Idle
    | Completed(index: nat, frameIndex: nat, uniqueIds: set<int>, written: seq<OutFrame>)
    | Crashed(index: nat)

  /** The side effects a pass performs, in order; commits carry the rows they make durable. */
  datatype Event = Committed(rows: seq<ProcessingQueue>) | WriterOpened | FrameRead(index: nat) | RolledBack | Slept

  function FaultAt(input: PassInput): Option<nat> {
    if input.fault.DetectorFails? then Some(input.fault.at) else None
  }

  /** The detector raises on a frame the capture actually yields. */
  predicate FrameFault(capOpened: bool, n: nat, faultAt: Option<nat>) {
    capOpened && faultAt.Some? && faultAt.value < n
  }

  /** The frames fully processed: all of them, or those before the faulty one. */
  function Processed(capOpened: bool, n: nat, faultAt: Option<nat>): (m: nat)
    ensures m <= n
    ensures !capOpened ==> m == 0
    ensures capOpened && !FrameFault(capOpened, n, faultAt) ==> m == n
  {
    if !capOpened then 0
    else if faultAt.Some? && faultAt.value < n then faultAt.value
    else n
  }

  /** Whether a pass that has selected a job raises after its `PROCESSING` commit. */
  predicate Crashes(input: PassInput) {
    input.fault.WriterFails? || FrameFault(input.capOpened, |input.frames|, FaultAt(input))
  }

  function Reads(k: nat): (ev: seq<Event>)
    ensures |ev| == k && forall j :: 0 <= j < k ==> ev[j] == FrameRead(j)
  {
    seq(k, j requires 0 <= j < k => FrameRead(j))
  }

  lemma ReadsStep(k: nat)
    ensures Reads(k) + [FrameRead(k)] == Reads(k + 1)
  {
  }

  /** The events of one pass over `rows`. */
  function PassEvents(rows: seq<ProcessingQueue>, input: PassInput): seq<Event> {
    match FirstQueued(rows)
    case None => [Slept]
    case Some(i) => [Committed(WithStatus(rows, i, "PROCESSING"))] + JobEvents(rows, i, input)
  }

  /** The events of a pass after it has committed `PROCESSING` for job `i`. */
  function JobEvents(rows: seq<ProcessingQueue>, i: nat, input: PassInput): seq<Event>
    requires i < |rows|
  {
    if input.fault.WriterFails? then [RolledBack, Slept]
    else [WriterOpened] + FrameEvents(rows, i, input)
  }

  /** The events of a pass after its writer has opened. */
  function FrameEvents(rows: seq<ProcessingQueue>, i: nat, input: PassInput): seq<Event>
    requires i < |rows|
  {
    var m := Processed(input.capOpened, |input.frames|, FaultAt(input));
    if Crashes(input) then Reads(m + 1) + [RolledBack, Slept]
    else Reads(m) + [Committed(WithStatus(rows, i, "COMPLETED"))]
  }

  /**
   * Order of a pass: the `PROCESSING` commit comes first, before the writer is opened and
   * before any frame is read; `COMPLETED` is committed only as the very last event of a
   * pass that did not crash, after every read; a crashed pass ends with a rollback.
   */
  lemma PassOrder(rows: seq<ProcessingQueue>, input: PassInput, i: nat)
    requires FirstQueued(rows) == Some(i)
    ensures var ev := PassEvents(rows, input);
      && ev[0] == Committed(WithStatus(rows, i, "PROCESSING"))
      && (forall k :: 0 <= k < |ev| && (ev[k].FrameRead? || ev[k].WriterOpened?) ==> k > 0)
      && (forall k :: 0 <= k < |ev| && ev[k] == Committed(WithStatus(rows, i, "COMPLETED")) ==>
            !Crashes(input) && k == |ev| - 1)
      && (Crashes(input) ==> ev[|ev| - 2] == RolledBack)
  {
    var p := WithStatus(rows, i, "PROCESSING");
    var c := WithStatus(rows, i, "COMPLETED");
    var jev := JobEvents(rows, i, input);
    var ev := PassEvents(rows, input);
    assert ev == [Committed(p)] + jev;
    assert p[i].status != c[i].status;
    JobEventsOrder(rows, i, input);
    forall k | 0 <= k < |ev| && ev[k] == Committed(c)
      ensures !Crashes(input) && k == |ev| - 1
    {
      assert k != 0;
      assert jev[k - 1] == Committed(c);
    }
  }

  /** Within a claimed job, `COMPLETED` can only be the last event; a crash rolls back. */
  lemma JobEventsOrder(rows: seq<ProcessingQueue>, i: nat, input: PassInput)
    requires i < |rows|
    ensures var ev := JobEvents(rows, i, input); var c := Committed(WithStatus(rows, i, "COMPLETED"));
      && (forall k :: 0 <= k < |ev| && ev[k] == c ==> !Crashes(input) && k == |ev| - 1)
      && (Crashes(input) ==> |ev| >= 2 && ev[|ev| - 2] == RolledBack)
  {
  }

  /** The last committed rows of a pass are the first queued job's final state. */
  lemma PassCommitsNextRows(rows: seq<ProcessingQueue>, input: PassInput, i: nat)
    requires FirstQueued(rows) == Some(i)
    ensures var ev := PassEvents(rows, input);
      Crashes(input) ==> ev[0].rows == NextRows(rows, true)
    ensures var ev := PassEvents(rows, input);
      !Crashes(input) ==> ev[|ev| - 1].Committed? && ev[|ev| - 1].rows == NextRows(rows, false)
  {
  }

  /**
   * Without a capture that opened, a job still goes through: nothing checks the capture,
   * the loop never runs and the job is `COMPLETED` with no frame processed.
   */
  lemma UnopenedCaptureCompletes(rows: seq<ProcessingQueue>, input: PassInput, i: nat)
    requires FirstQueued(rows) == Some(i) && !input.capOpened && !input.fault.WriterFails?
    ensures !Crashes(input) && NextRows(rows, Crashes(input))[i].status == "COMPLETED"
    ensures Processed(input.capOpened, |input.frames|, FaultAt(input)) == 0
  {
  }

  function CrashFlags(inputs: seq<PassInput>): (cs: seq<bool>)
    ensures |cs| == |inputs| && forall p :: 0 <= p < |inputs| ==> cs[p] == Crashes(inputs[p])
  {
    seq(|inputs|, p requires 0 <= p < |inputs| => Crashes(inputs[p]))
  }

  /**
   * What one pass over `rows` feeds the global tracker: nothing when it sleeps or its
   * writer fails, otherwise the filtered list of every frame it processed.
   */
  function PassLog(detect: Frame -> seq<Candidate>, rows: seq<ProcessingQueue>, input: PassInput): seq<seq<Detection>> {
    if FirstQueued(rows).None? || input.fault.WriterFails? then []
    else FrameUpdates(detect, input.frames)[..Processed(input.capOpened, |input.frames|, FaultAt(input))]
  }

  /** The committed rows after the first `p` passes of a run over `inputs`. */
  function RowsAfter(rows: seq<ProcessingQueue>, inputs: seq<PassInput>, p: nat): seq<ProcessingQueue>
    requires p <= |inputs|
  {
    if p == 0 then rows else NextRows(RowsAfter(rows, inputs, p - 1), Crashes(inputs[p - 1]))
  }

  /**
   * What the first `p` passes feed the single global tracker, pass after pass: it is never
   * reset between jobs.
   */
  function TrackerAfter(detect: Frame -> seq<Candidate>, rows: seq<ProcessingQueue>, inputs: seq<PassInput>,
                        p: nat): seq<seq<Detection>>
    requires p <= |inputs|
  {
    if p == 0 then []
    else TrackerAfter(detect, rows, inputs, p - 1) + PassLog(detect, RowsAfter(rows, inputs, p - 1), inputs[p - 1])
  }

  /** The side effects of the first `p` passes, pass after pass. */
  function EventsAfter(rows: seq<ProcessingQueue>, inputs: seq<PassInput>, p: nat): seq<Event>
    requires p <= |inputs|
  {
    if p == 0 then [] else EventsAfter(rows, inputs, p - 1) + PassEvents(RowsAfter(rows, inputs, p - 1), inputs[p - 1])
  }

  /** The rows after `p` passes are those the first `p` crash flags lead to. */
  lemma {:induction false} RowsAfterRunPasses(rows: seq<ProcessingQueue>, inputs: seq<PassInput>, p: nat)
    requires p <= |inputs|
    ensures RowsAfter(rows, inputs, p) == RunPasses(rows, CrashFlags(inputs)[..p])
  {
    if p > 0 {
      RowsAfterRunPasses(rows, inputs, p - 1);
      assert CrashFlags(inputs)[..p][..p - 1] == CrashFlags(inputs)[..p - 1];
    }
  }

  /** After every pass of a run, the rows are those all its crash flags lead to. */
  lemma RowsAfterAll(rows: seq<ProcessingQueue>, inputs: seq<PassInput>)
    ensures RowsAfter(rows, inputs, |inputs|) == RunPasses(rows, CrashFlags(inputs))
  {
    RowsAfterRunPasses(rows, inputs, |inputs|);
    assert CrashFlags(inputs)[..|inputs|] == CrashFlags(inputs);
  }

  /**
   * What a pass over `rows`, with tracker history `log`, reports: idle exactly when nothing
   * is queued, a crash of the first queued job exactly when it raises after its claim, and
   * otherwise that job completed with the counts, ids and frames its loop produced.
   */
  predicate PassAgrees(detect: Frame -> seq<Candidate>, track: seq<seq<Detection>> -> seq<TrackedObject>,
                       rows: seq<ProcessingQueue>, log: seq<seq<Detection>>, input: PassInput, outcome: PassOutcome)
  {
    && (outcome.Idle? <==> FirstQueued(rows).None?)
    && (outcome.Crashed? <==> FirstQueued(rows).Some? && Crashes(input))
    && (!outcome.Idle? ==> outcome.index == FirstQueued(rows).value)
    && (outcome.Completed? ==>
          var u := FrameUpdates(detect, input.frames);
          && outcome.frameIndex == (if input.capOpened then |input.frames| else 0)
          && outcome.uniqueIds == SeenIds(track, log, u, outcome.frameIndex)
          && outcome.written == OutFrames(track, log, u, input.frames, outcome.frameIndex))
  }

  /**
   * Each of the first `n` outcomes of a run agrees with its pass: pass `q` starts from the
   * rows the earlier passes committed and from the tracker history they left behind.
   */
  predicate RunAgrees(detect: Frame -> seq<Candidate>, track: seq<seq<Detection>> -> seq<TrackedObject>,
                      rows: seq<ProcessingQueue>, log: seq<seq<Detection>>, inputs: seq<PassInput>,
                      outcomes: seq<PassOutcome>, n: nat)
    requires n <= |inputs| && n <= |outcomes|
  {
    n == 0 ||
    (&& RunAgrees(detect, track, rows, log, inputs, outcomes, n - 1)
     && PassAgrees(detect, track, RowsAfter(rows, inputs, n - 1), log + TrackerAfter(detect, rows, inputs, n - 1),
                   inputs[n - 1], outcomes[n - 1]))
  }

  /** The outcome of pass `q` of a run is what that pass reports from where the earlier ones left off. */
  lemma {:induction false} RunAgreesAt(detect: Frame -> seq<Candidate>, track: seq<seq<Detection>> -> seq<TrackedObject>,
                                       rows: seq<ProcessingQueue>, log: seq<seq<Detection>>, inputs: seq<PassInput>,
                                       outcomes: seq<PassOutcome>, n: nat, q: nat)
    requires n <= |inputs| && n <= |outcomes| && RunAgrees(detect, track, rows, log, inputs, outcomes, n) && q < n
    ensures PassAgrees(detect, track, RowsAfter(rows, inputs, q), log + TrackerAfter(detect, rows, inputs, q),
                       inputs[q], outcomes[q])
  {
    if q < n - 1 {
      RunAgreesAt(detect, track, rows, log, inputs, outcomes, n - 1, q);
    } else {
      assert q == n - 1;
    }
  }

  /** Outcomes past the first `n` do not matter to the first `n`. */
  lemma {:induction false} RunAgreesAppend(detect: Frame -> seq<Candidate>, track: seq<seq<Detection>> -> seq<TrackedObject>,
                                           rows: seq<ProcessingQueue>, log: seq<seq<Detection>>, inputs: seq<PassInput>,
                                           outcomes: seq<PassOutcome>, outcome: PassOutcome, n: nat)
    requires n <= |inputs| && n <= |outcomes| && RunAgrees(detect, track, rows, log, inputs, outcomes, n)
    ensures RunAgrees(detect, track, rows, log, inputs, outcomes + [outcome], n)
  {
    if n > 0 {
      RunAgreesAppend(detect, track, rows, log, inputs, outcomes, outcome, n - 1);
      assert (outcomes + [outcome])[n - 1] == outcomes[n - 1];
    }
  }

  /** One more pass extends a run whose outcomes so far agree with its passes. */
  lemma RunAgreesStep(detect: Frame -> seq<Candidate>, track: seq<seq<Detection>> -> seq<TrackedObject>,
                      rows: seq<ProcessingQueue>, log: seq<seq<Detection>>, inputs: seq<PassInput>,
                      outcomes: seq<PassOutcome>, outcome: PassOutcome)
    requires |outcomes| < |inputs| && RunAgrees(detect, track, rows, log, inputs, outcomes, |outcomes|)
    requires var n := |outcomes|;
      PassAgrees(detect, track, RowsAfter(rows, inputs, n), log + TrackerAfter(detect, rows, inputs, n), inputs[n], outcome)
    ensures RunAgrees(detect, track, rows, log, inputs, outcomes + [outcome], |outcomes| + 1)
  {
    RunAgreesAppend(detect, track, rows, log, inputs, outcomes, outcome, |outcomes|);
    assert (outcomes + [outcome])[|outcomes|] == outcome;
  }

  /** A history that grew by `step` after `front`: the step regrouped onto the front. */
  lemma Regrow<T>(start: seq<T>, front: seq<T>, mid: seq<T>, step: seq<T>, now: seq<T>)
    requires mid == start + front && now == mid + step
    ensures now == start + (front + step)
  {
  }

  /**
   * The worker: the committed rows, the rows as the session sees them, the history of
   * the global tracker's updates and a trace of the side effects performed.
   */
  class Worker {
    var table: seq<ProcessingQueue>
    var pending: seq<ProcessingQueue>
    var trackerLog: seq<seq<Detection>>
    ghost var events: seq<Event>
    const detect: Frame -> seq<Candidate>
    const track: seq<seq<Detection>> -> seq<TrackedObject>

    constructor (rows: seq<ProcessingQueue>, detect: Frame -> seq<Candidate>,
                 track: seq<seq<Detection>> -> seq<TrackedObject>)
      ensures table == rows && pending == rows && trackerLog == [] && events == []
      ensures this.detect == detect && this.track == track
    {
      table, pending, trackerLog, events := rows, rows, [], [];
      this.detect, this.track := detect, track;
    }

    /** `task.status = s`: a change the session holds until a commit. */
    method SetStatus(i: nat, s: string)
      requires i < |pending|
      modifies this`pending
      ensures pending == WithStatus(old(pending), i, s)
    {
      pending := pending[i := pending[i].(status := s)];
    }

    /** `db.session.commit()`: the session's rows become durable. */
    method Commit()
      modifies this`table, this`events
      ensures table == pending && events == old(events) + [Committed(pending)]
    {
      table := pending;
      events := events + [Committed(pending)];
    }

    /** `db.session.rollback()`: uncommitted changes are dropped; committed ones stay. */
    method Rollback()
      modifies this`pending, this`events
      ensures pending == table && events == old(events) + [RolledBack]
    {
      pending := table;
      events := events + [RolledBack];
    }

    /** `tracker.update(detections=...)`: one more entry in the tracker's history. */
    method TrackerUpdate(detections: seq<Detection>) returns (objs: seq<TrackedObject>)
      modifies this`trackerLog
      ensures trackerLog == old(trackerLog) + [detections] && objs == track(trackerLog)
    {
      trackerLog := trackerLog + [detections];
      objs := track(trackerLog);
    }

    /**
     * The body of the frame loop for one frame read: detection and filtering, one tracker
     * update, the ids added to the running set, and the frame with its marks.
     */
    method ProcessFrame(frame: Frame, ids: set<int>) returns (ids': set<int>, out: OutFrame)
      modifies this`trackerLog
      ensures trackerLog == old(trackerLog) + [KeptDetections(detect(frame))]
      ensures ids' == ids + IdsOf(track(trackerLog))
      ensures out == OutFrame(frame, MarksOf(track(trackerLog)))
    {
      var detections := BuildDetections(detect(frame));
      var objs := TrackerUpdate(detections);
      var marks;
      ids', marks := DrawObjects(ids, objs);
      assert marks == MarksOf(objs);
      out := OutFrame(frame, marks);
    }

    /**
     * The `while cap.isOpened()` loop.  Reads that succeed are exactly the frames of the
     * capture, in order; each is run through the detector, fed to the tracker once (an empty
     * list included), marked and written, and `frame_index` counts it.  The loop ends at the
     * first failed read, or by an exception in the detector on frame `faultAt`.
     */
    method ProcessFrames(frames: seq<Frame>, capOpened: bool, faultAt: Option<nat>)
        returns (frameIndex: nat, uniqueIds: set<int>, written: seq<OutFrame>, crashed: bool)
      modifies this`trackerLog, this`events
      ensures crashed == FrameFault(capOpened, |frames|, faultAt)
      ensures frameIndex == Processed(capOpened, |frames|, faultAt)
      ensures trackerLog == old(trackerLog) + FrameUpdates(detect, frames)[..frameIndex]
      ensures uniqueIds == SeenIds(track, old(trackerLog), FrameUpdates(detect, frames), frameIndex)
      ensures written == OutFrames(track, old(trackerLog), FrameUpdates(detect, frames), frames, frameIndex)
      ensures events == old(events) + Reads(if crashed then frameIndex + 1 else frameIndex)
    {
      ghost var log0 := trackerLog;
      ghost var u := FrameUpdates(detect, frames);
      frameIndex, uniqueIds, written, crashed := 0, {}, [], false;
      while capOpened
        invariant frameIndex <= |frames|
        invariant !capOpened ==> frameIndex == 0
        invariant capOpened && faultAt.Some? ==> frameIndex <= faultAt.value
        invariant trackerLog == log0 + u[..frameIndex]
        invariant uniqueIds == SeenIds(track, log0, u, frameIndex)
        invariant written == OutFrames(track, log0, u, frames, frameIndex)
        invariant events == old(events) + Reads(frameIndex)
        decreases |frames| - frameIndex
      {
        if frameIndex == |frames| {
          break;
        }
        var frame := frames[frameIndex];
        events := events + [FrameRead(frameIndex)];
        ReadsStep(frameIndex);
        if faultAt == Some(frameIndex) {
          crashed := true;
          assert frameIndex == Processed(capOpened, |frames|, faultAt);
          return;
        }
        UpdatesPrefix(detect, frames, log0, frameIndex);
        OutFramesStep(track, log0, u, frames, frameIndex);
        var out;
        uniqueIds, out := ProcessFrame(frame, uniqueIds);
        written := written + [out];
        frameIndex := frameIndex + 1;
      }
    }

    /**
     * One pass of the endless loop.  With no queued job it only sleeps.  Otherwise the
     * first queued job is handled.
     */
    method Pass(input: PassInput) returns (outcome: PassOutcome)
      requires pending == table
      modifies this`table, this`pending, this`trackerLog, this`events
      ensures pending == table
      ensures table == NextRows(old(table), Crashes(input))
      ensures events == old(events) + PassEvents(old(table), input)
      ensures FirstQueued(old(table)).None? <==> outcome.Idle?
      ensures outcome.Completed? <==> FirstQueued(old(table)).Some? && !Crashes(input)
      ensures outcome.Crashed? <==> FirstQueued(old(table)).Some? && Crashes(input)
      ensures !outcome.Idle? ==> outcome.index == FirstQueued(old(table)).value
      ensures outcome.Idle? || input.fault.WriterFails? ==> trackerLog == old(trackerLog)
      ensures !outcome.Idle? && !input.fault.WriterFails? ==>
        var m := Processed(input.capOpened, |input.frames|, FaultAt(input));
        trackerLog == old(trackerLog) + FrameUpdates(detect, input.frames)[..m]
      ensures outcome.Completed? ==>
        var u := FrameUpdates(detect, input.frames);
        && outcome.frameIndex == (if input.capOpened then |input.frames| else 0)
        && outcome.uniqueIds == SeenIds(track, old(trackerLog), u, outcome.frameIndex)
        && outcome.written == OutFrames(track, old(trackerLog), u, input.frames, outcome.frameIndex)
      ensures trackerLog == old(trackerLog) + PassLog(detect, old(table), input)
      ensures PassAgrees(detect, track, old(table), old(trackerLog), input, outcome)
    {
      var task := FirstQueued(table);
      match task
      case None =>
        events := events + [Slept];
        outcome := Idle;
      case Some(i) =>
        outcome := HandleJob(i, input);
    }

    /**
     * A pass that has found job `i`.  Its `PROCESSING` is committed first; an exception
     * after that is caught, rolled back and slept on, and leaves the job `PROCESSING`; a
     * pass without one commits `COMPLETED`.  `status` is the only column written, and the
     * tracker keeps whatever it was fed, whether the job completes or not.
     */
    method HandleJob(i: nat, input: PassInput) returns (outcome: PassOutcome)
      requires pending == table && FirstQueued(table) == Some(i)
      modifies this`table, this`pending, this`trackerLog, this`events
      ensures pending == table
      ensures table == NextRows(old(table), Crashes(input))
      ensures events == old(events) + PassEvents(old(table), input)
      ensures outcome.Completed? <==> !Crashes(input)
      ensures outcome.Crashed? <==> Crashes(input)
      ensures !outcome.Idle? && outcome.index == i
      ensures input.fault.WriterFails? ==> trackerLog == old(trackerLog)
      ensures !input.fault.WriterFails? ==>
        var m := Processed(input.capOpened, |input.frames|, FaultAt(input));
        trackerLog == old(trackerLog) + FrameUpdates(detect, input.frames)[..m]
      ensures outcome.Completed? ==>
        var u := FrameUpdates(detect, input.frames);
        && outcome.frameIndex == (if input.capOpened then |input.frames| else 0)
        && outcome.uniqueIds == SeenIds(track, old(trackerLog), u, outcome.frameIndex)
        && outcome.written == OutFrames(track, old(trackerLog), u, input.frames, outcome.frameIndex)
    {
      ghost var rows := table;
      Claim(i);
      if input.fault.WriterFails? {
        outcome := Abandon(i);
        assert events == old(events) + ([Committed(WithStatus(rows, i, "PROCESSING"))] + JobEvents(rows, i, input));
      } else {
        events := events + [WriterOpened];
        outcome := RunJob(i, input, rows);
        assert events == old(events) + ([Committed(WithStatus(rows, i, "PROCESSING"))] + JobEvents(rows, i, input));
      }
    }

    /** `task.status = 'PROCESSING'` and the commit after it. */
    method Claim(i: nat)
      requires pending == table && i < |table|
      modifies this`table, this`pending, this`events
      ensures table == pending == WithStatus(old(table), i, "PROCESSING")
      ensures events == old(events) + [Committed(table)]
    {
      SetStatus(i, "PROCESSING");
      Commit();
    }

    /** The `except` branch: roll back, then sleep. */
    method Abandon(i: nat) returns (outcome: PassOutcome)
      modifies this`pending, this`events
      ensures pending == table && outcome == Crashed(i)
      ensures events == old(events) + [RolledBack, Slept]
    {
      Rollback();
      events := events + [Slept];
      outcome := Crashed(i);
    }

    /**
     * The frame loop of a claimed job, then the `COMPLETED` commit, or the `except` branch
     * when the detector raises.  The tracker keeps everything it was fed either way.
     */
    method RunJob(i: nat, input: PassInput, ghost rows: seq<ProcessingQueue>) returns (outcome: PassOutcome)
      requires i < |rows| && pending == table && table == WithStatus(rows, i, "PROCESSING")
      requires !input.fault.WriterFails?
      modifies this`table, this`pending, this`trackerLog, this`events
      ensures pending == table
      ensures table == WithStatus(rows, i, if Crashes(input) then "PROCESSING" else "COMPLETED")
      ensures events == old(events) + FrameEvents(rows, i, input)
      ensures outcome.Completed? <==> !Crashes(input)
      ensures outcome.Crashed? <==> Crashes(input)
      ensures !outcome.Idle? && outcome.index == i
      ensures var m := Processed(input.capOpened, |input.frames|, FaultAt(input));
        trackerLog == old(trackerLog) + FrameUpdates(detect, input.frames)[..m]
      ensures outcome.Completed? ==>
        var u := FrameUpdates(detect, input.frames);
        && outcome.frameIndex == (if input.capOpened then |input.frames| else 0)
        && outcome.uniqueIds == SeenIds(track, old(trackerLog), u, outcome.frameIndex)
        && outcome.written == OutFrames(track, old(trackerLog), u, input.frames, outcome.frameIndex)
    {
      var frameIndex, uniqueIds, written, crashed := ProcessFrames(input.frames, input.capOpened, FaultAt(input));
      if crashed {
        outcome := Abandon(i);
      } else {
        SetStatus(i, "COMPLETED");
        Commit();
        assert table == WithStatus(rows, i, "COMPLETED");
        outcome := Completed(i, frameIndex, uniqueIds, written);
      }
    }

    /**
     * The worker after the first `p` passes of a run over `inputs` that started from the
     * rows `rows0`, the tracker history `log0` and the trace `events0`.
     */
    ghost predicate RunSoFar(inputs: seq<PassInput>, rows0: seq<ProcessingQueue>, log0: seq<seq<Detection>>,
                             events0: seq<Event>, outcomes: seq<PassOutcome>, p: nat)
      reads this
    {
      && p <= |inputs| && |outcomes| == p && pending == table
      && table == RowsAfter(rows0, inputs, p)
      && trackerLog == log0 + TrackerAfter(detect, rows0, inputs, p)
      && events == events0 + EventsAfter(rows0, inputs, p)
      && RunAgrees(detect, track, rows0, log0, inputs, outcomes, p)
    }

    /** Pass `p` of a run: the rows, the tracker history and the trace each grow by that pass. */
    method RunPass(inputs: seq<PassInput>, p: nat, ghost rows0: seq<ProcessingQueue>,
                   ghost log0: seq<seq<Detection>>, ghost events0: seq<Event>, ghost outcomes: seq<PassOutcome>)
        returns (outcome: PassOutcome)
      requires p < |inputs| && RunSoFar(inputs, rows0, log0, events0, outcomes, p)
      modifies this`table, this`pending, this`trackerLog, this`events
      ensures RunSoFar(inputs, rows0, log0, events0, outcomes + [outcome], p + 1)
    {
      ghost var log, ev := trackerLog, events;
      outcome := Pass(inputs[p]);
      Regrow(log0, TrackerAfter(detect, rows0, inputs, p), log, PassLog(detect, old(table), inputs[p]), trackerLog);
      Regrow(events0, EventsAfter(rows0, inputs, p), ev, PassEvents(old(table), inputs[p]), events);
      RunAgreesStep(detect, track, rows0, log0, inputs, outcomes, outcome);
    }

    /**
     * The `while True` loop, run for as many passes as there are inputs.  Pass `p` starts
     * from the rows the earlier passes committed and from the tracker history they left.
     */
    method Run(inputs: seq<PassInput>) returns (outcomes: seq<PassOutcome>)
      requires pending == table
      modifies this`table, this`pending, this`trackerLog, this`events
      ensures pending == table
      ensures table == RowsAfter(old(table), inputs, |inputs|) == RunPasses(old(table), CrashFlags(inputs))
      ensures trackerLog == old(trackerLog) + TrackerAfter(detect, old(table), inputs, |inputs|)
      ensures events == old(events) + EventsAfter(old(table), inputs, |inputs|)
      ensures |outcomes| == |inputs|
      ensures RunAgrees(detect, track, old(table), old(trackerLog), inputs, outcomes, |inputs|)
    {
      outcomes := [];
      var p := 0;
      while p < |inputs|
        invariant RunSoFar(inputs, old(table), old(trackerLog), old(events), outcomes, p)
      {
        var outcome := RunPass(inputs, p, old(table), old(trackerLog), old(events), outcomes);
        outcomes := outcomes + [outcome];
        p := p + 1;
      }
      RowsAfterAll(old(table), inputs);
    }
  }
}
