/**
 * The per-frame session logic of `detectFaces` in src/App.tsx: the closure
 * variables `lastDetectionTime`, `lastDetectedStudent` and
 * `lastConfidence`, the 300 ms throttle, the debounced update of the
 * detected student and confidence, and the reset when no face is seen.
 *
 * `Step` is the specification: one tick as a function of the old state.
 * `Session.Tick` does the same work step by step on the three fields.
 */
module Sessions {
  import opened Options
  import opened Detector
  import opened Recognition

  /** A tick within this many milliseconds of the last admitted one is dropped. */
  const MinInterval: int := 300

  /** The three closure variables of the detection effect. */
  datatype SessionState = SessionState(
    lastDetectionTime: int,
    lastDetectedStudent: Option<string>,
    lastConfidence: real)

  /** The values they start with when the effect (re)starts. */
  const Initial: SessionState := SessionState(0, None, 0.0)

  /** What the interval timer finds when it fires: a video without
      dimensions yet, the detector's predictions, or a detector error. */
  datatype Frame = VideoNotReady | Detected(predictions: seq<Face>) | DetectionFailed

  /** The `setDetectedStudent` / `setConfidence` calls a tick makes, if any. */
  datatype Emission = Silent | Emit(student: Option<string>, confidence: real)

  /** The state a session keeps between ticks: the confidence is a score,
      and a detected student is an enrolled name whose match was accepted. */
  ghost predicate Consistent(s: SessionState, gallery: seq<GalleryEntry>)
  {
    && 0.0 <= s.lastConfidence <= 100.0
    && (s.lastDetectedStudent.Some? ==>
          s.lastConfidence > 40.0 &&
          exists k :: 0 <= k < |gallery| && gallery[k].name == s.lastDetectedStudent.value)
  }

  /** The detection work of an admitted tick; `s` already carries the new
      timestamp. */
  function Detect(s: SessionState, frame: Frame, gallery: seq<GalleryEntry>, sqrt: real -> real): (SessionState, Emission)
  {
    match frame
    case Detected(predictions) =>
      if |predictions| > 0 then
        if |gallery| > 0 then
          var best := BestOf(BuildDescriptor(predictions[0]), gallery, sqrt);
          var score := Confidence(best);
          if s.lastDetectedStudent != Some(best.name) || score != s.lastConfidence then
            var student := if Accepted(best) then Some(best.name) else None;
            (s.(lastDetectedStudent := student, lastConfidence := score), Emit(student, score))
          else (s, Silent)
        else (s, Silent)
      else if s.lastDetectedStudent != None then
        (s.(lastDetectedStudent := None, lastConfidence := 0.0), Emit(None, 0.0))
      else (s, Silent)
    case _ => (s, Silent)
  }

  /** One run of `detectFaces` at time `now`. */
  function Step(s: SessionState, now: int, frame: Frame, gallery: seq<GalleryEntry>, sqrt: real -> real): (SessionState, Emission)
  {
    if frame.VideoNotReady? || now - s.lastDetectionTime < MinInterval then (s, Silent)
    else Detect(s.(lastDetectionTime := now), frame, gallery, sqrt)
  }

  // ---------------------------------------------------------------------
  // Properties of one tick

  /** A tick before the video is ready, or within 300 ms of the last
      admitted one, changes nothing and emits nothing. */
  lemma DroppedTick(s: SessionState, now: int, frame: Frame, gallery: seq<GalleryEntry>, sqrt: real -> real)
    requires frame.VideoNotReady? || now - s.lastDetectionTime < MinInterval
    ensures Step(s, now, frame, gallery, sqrt) == (s, Silent)
  {
  }

  /** An admitted tick stamps `now` whatever the detector then reports, and
      an emission always reports the new student and confidence. */
  lemma AdmittedTick(s: SessionState, now: int, frame: Frame, gallery: seq<GalleryEntry>, sqrt: real -> real)
    requires !frame.VideoNotReady? && now - s.lastDetectionTime >= MinInterval
    ensures Step(s, now, frame, gallery, sqrt).0.lastDetectionTime == now
    ensures var (s', e) := Step(s, now, frame, gallery, sqrt);
      e.Emit? ==> e.student == s'.lastDetectedStudent && e.confidence == s'.lastConfidence
    ensures var (s', e) := Step(s, now, frame, gallery, sqrt);
      e.Silent? ==> s' == s.(lastDetectionTime := now)
  {
  }

  /** A detector error only consumes the tick: the identity and confidence
      stay as they were. */
  lemma FailedDetection(s: SessionState, now: int, gallery: seq<GalleryEntry>, sqrt: real -> real)
    requires now - s.lastDetectionTime >= MinInterval
    ensures Step(s, now, DetectionFailed, gallery, sqrt) == (s.(lastDetectionTime := now), Silent)
  {
  }

  /** With a face and an enrolled gallery, an update sets the student to the
      best name when its distance is below 0.6 and to none otherwise, and the
      confidence to the computed score in both cases. */
  lemma UpdateFollowsThreshold(s: SessionState, now: int, predictions: seq<Face>,
                               gallery: seq<GalleryEntry>, sqrt: real -> real)
    requires now - s.lastDetectionTime >= MinInterval
    requires |predictions| > 0 && |gallery| > 0
    ensures var best := BestOf(BuildDescriptor(predictions[0]), gallery, sqrt);
      var (s', e) := Step(s, now, Detected(predictions), gallery, sqrt);
      e.Emit? ==>
        && s'.lastConfidence == Confidence(best)
        && (Accepted(best) ==> s'.lastDetectedStudent == Some(best.name))
        && (!Accepted(best) ==> s'.lastDetectedStudent == None)
    ensures var best := BestOf(BuildDescriptor(predictions[0]), gallery, sqrt);
      var (s', e) := Step(s, now, Detected(predictions), gallery, sqrt);
      e.Emit? <==> (s.lastDetectedStudent != Some(best.name) || Confidence(best) != s.lastConfidence)
  {
  }

  /** Debounce: when the best name and the score equal the remembered ones,
      only the timestamp moves. */
  lemma UnchangedMatchIsSuppressed(s: SessionState, now: int, predictions: seq<Face>,
                                   gallery: seq<GalleryEntry>, sqrt: real -> real)
    requires now - s.lastDetectionTime >= MinInterval
    requires |predictions| > 0
    requires var best := BestOf(BuildDescriptor(predictions[0]), gallery, sqrt);
      s.lastDetectedStudent == Some(best.name) && Confidence(best) == s.lastConfidence
    ensures Step(s, now, Detected(predictions), gallery, sqrt) == (s.(lastDetectionTime := now), Silent)
  {
  }

  /** With no enrolled student a face changes nothing but the timestamp. */
  lemma EmptyGalleryIsInert(s: SessionState, now: int, predictions: seq<Face>, sqrt: real -> real)
    requires now - s.lastDetectionTime >= MinInterval
    requires |predictions| > 0
    ensures Step(s, now, Detected(predictions), [], sqrt) == (s.(lastDetectionTime := now), Silent)
  {
  }

  /** No face: a detected student is reset to (none, 0) and announced; with
      no student detected nothing is emitted. */
  lemma NoFaceResets(s: SessionState, now: int, gallery: seq<GalleryEntry>, sqrt: real -> real)
    requires now - s.lastDetectionTime >= MinInterval
    ensures s.lastDetectedStudent.Some? ==>
      Step(s, now, Detected([]), gallery, sqrt) == (SessionState(now, None, 0.0), Emit(None, 0.0))
    ensures s.lastDetectedStudent.None? ==>
      Step(s, now, Detected([]), gallery, sqrt) == (s.(lastDetectionTime := now), Silent)
  {
  }

  /** Every tick keeps the session consistent with its gallery. */
  lemma StepPreservesConsistency(s: SessionState, now: int, frame: Frame,
                                 gallery: seq<GalleryEntry>, sqrt: real -> real)
    requires Consistent(s, gallery)
    ensures Consistent(Step(s, now, frame, gallery, sqrt).0, gallery)
  {
    if !frame.VideoNotReady? && now - s.lastDetectionTime >= MinInterval && frame.Detected? {
      var predictions := frame.predictions;
      if |predictions| > 0 && |gallery| > 0 {
        var best := BestOf(BuildDescriptor(predictions[0]), gallery, sqrt);
        if Accepted(best) {
          BestOfNamesAnEntry(BuildDescriptor(predictions[0]), gallery, sqrt);
          AcceptedConfidence(best);
        }
      }
    }
  }

  // ---------------------------------------------------------------------
  // Properties of consecutive ticks

  /** After an admitted tick at `now`, the next tick is dropped unless it
      comes at least 300 ms later. */
  lemma ThrottleWindow(s: SessionState, now: int, frame: Frame, later: int, next: Frame,
                       gallery: seq<GalleryEntry>, sqrt: real -> real)
    requires !frame.VideoNotReady? && now - s.lastDetectionTime >= MinInterval
    requires later < now + MinInterval
    ensures var s1 := Step(s, now, frame, gallery, sqrt).0;
      Step(s1, later, next, gallery, sqrt) == (s1, Silent)
  {
    AdmittedTick(s, now, frame, gallery, sqrt);
  }

  /** A detector failure does not wedge the loop: 300 ms later the tick is
      admitted and behaves as it would have without the failure, apart from
      the timestamp it starts from. */
  lemma FailureDoesNotWedge(s: SessionState, now: int, later: int, next: Frame,
                            gallery: seq<GalleryEntry>, sqrt: real -> real)
    requires now - s.lastDetectionTime >= MinInterval
    requires !next.VideoNotReady? && later >= now + MinInterval
    ensures var s1 := Step(s, now, DetectionFailed, gallery, sqrt).0;
      Step(s1, later, next, gallery, sqrt) == Step(s, later, next, gallery, sqrt)
  {
  }

  /** An accepted match is announced once: repeating the same frame on any
      later tick emits nothing, whether the throttle drops it or it is admitted. */
  lemma {:induction false} AcceptedMatchEmitsOnce(s: SessionState, now: int, later: int, predictions: seq<Face>,
                                                  gallery: seq<GalleryEntry>, sqrt: real -> real)
    requires now - s.lastDetectionTime >= MinInterval
    requires |predictions| > 0 && |gallery| > 0
    requires Accepted(BestOf(BuildDescriptor(predictions[0]), gallery, sqrt))
    ensures var s1 := Step(s, now, Detected(predictions), gallery, sqrt).0;
      Step(s1, later, Detected(predictions), gallery, sqrt).1 == Silent
  {
  }

  /** A rejected match is announced on every admitted tick: the state
      remembers no student, but the comparison is against the best name, so
      the same frame never looks unchanged. */
  lemma {:induction false} RejectedMatchAlwaysReemits(s: SessionState, now: int, later: int,
                                                      predictions: seq<Face>, gallery: seq<GalleryEntry>, sqrt: real -> real)
    requires Consistent(s, gallery)
    requires now - s.lastDetectionTime >= MinInterval && later >= now + MinInterval
    requires |predictions| > 0 && |gallery| > 0
    requires !Accepted(BestOf(BuildDescriptor(predictions[0]), gallery, sqrt))
    ensures var best := BestOf(BuildDescriptor(predictions[0]), gallery, sqrt);
      var (s1, e1) := Step(s, now, Detected(predictions), gallery, sqrt);
      && e1 == Emit(None, Confidence(best))
      && Step(s1, later, Detected(predictions), gallery, sqrt).1 == Emit(None, Confidence(best))
  {
    var best := BestOf(BuildDescriptor(predictions[0]), gallery, sqrt);
    RejectedConfidence(best);
    var s1 := s.(lastDetectionTime := now, lastDetectedStudent := None, lastConfidence := Confidence(best));
    assert Step(s, now, Detected(predictions), gallery, sqrt) == (s1, Emit(None, Confidence(best)));
  }

  // ---------------------------------------------------------------------
  // A worked example: gallery A = (0,0,0), B = (1,1,1), one landmark per face

  const ExampleGallery: seq<GalleryEntry> :=
    [GalleryEntry("A", [0.0, 0.0, 0.0]), GalleryEntry("B", [1.0, 1.0, 1.0])]

  /** A face whose descriptor is (x, x, x). */
  function UniformFace(x: real): Face
  {
    Face([Point(Fin(x), Fin(x))], Fin(x))
  }

  lemma UniformFaceDescriptor(x: real)
    ensures BuildDescriptor(UniformFace(x)) == [x, x, x]
  {
    BuildDescriptorComplete(UniformFace(x));
  }

  /** The query (0,0,0) matches A at distance 0 with confidence 100, and a
      fresh session announces A. */
  lemma ExactMatchIsIdentified(sqrt: real -> real, now: int)
    requires IsSqrt(sqrt) && now >= MinInterval
    ensures BestOf([0.0, 0.0, 0.0], ExampleGallery, sqrt) == BestMatch("A", Finite(0.0))
    ensures Step(Initial, now, Detected([UniformFace(0.0)]), ExampleGallery, sqrt) ==
      (SessionState(now, Some("A"), 100.0), Emit(Some("A"), 100.0))
  {
    var q := [0.0, 0.0, 0.0];
    DistanceToSelf(q, sqrt);
    DistanceDefined(q, ExampleGallery[1].descriptor, sqrt);
    UniformFaceDescriptor(0.0);
  }

  /** The query (10,10,10) is nearer B than A, but too far from both: the
      session stays unidentified and reports a score of 0. */
  lemma FarQueryIsUnidentified(sqrt: real -> real, now: int)
    requires IsSqrt(sqrt) && now >= MinInterval
    ensures BestOf([10.0, 10.0, 10.0], ExampleGallery, sqrt).name == "B"
    ensures Step(Initial, now, Detected([UniformFace(10.0)]), ExampleGallery, sqrt) ==
      (SessionState(now, None, 0.0), Emit(None, 0.0))
  {
    var q := [10.0, 10.0, 10.0];
    var g := ExampleGallery;
    assert PartialSum(q, g[0].descriptor, 3) == Fin(300.0);
    ThresholdOnSquares(q, g[1], sqrt);
    UniformFaceDescriptor(10.0);
  }

  /** A face with no numeric value gives an empty query. The distance loop
      runs over the query's indices only, so every entry is at distance 0:
      the first entry is accepted with confidence 100. */
  lemma EmptyQueryMatchesFirstEntry(face: Face, gallery: seq<GalleryEntry>, sqrt: real -> real, now: int)
    requires IsSqrt(sqrt) && now >= MinInterval
    requires BuildDescriptor(face) == [] && |gallery| > 0
    ensures BestOf([], gallery, sqrt) == BestMatch(gallery[0].name, Finite(0.0))
    ensures Step(Initial, now, Detected([face]), gallery, sqrt) ==
      (SessionState(now, Some(gallery[0].name), 100.0), Emit(Some(gallery[0].name), 100.0))
  {
    forall j | 0 <= j < |gallery| ensures EntryDistance([], gallery[j], sqrt) == Fin(0.0) { }
    BestOfIsFirstMinimum([], gallery, sqrt);
    var best := BestOf([], gallery, sqrt);
    assert best != NoMatch by {
      assert EntryDistance([], gallery[0], sqrt).Fin?;
    }
    var k :| IsFirstMinimum([], gallery, sqrt, k) &&
      best == BestMatch(gallery[k].name, Finite(EntryDistance([], gallery[k], sqrt).value));
  }

  /** The face `Face([], NaN)` is accepted as A in the worked example. */
  lemma BlankFaceIsIdentified(sqrt: real -> real, now: int)
    requires IsSqrt(sqrt) && now >= MinInterval
    ensures Step(Initial, now, Detected([Face([], NaN)]), ExampleGallery, sqrt) ==
      (SessionState(now, Some("A"), 100.0), Emit(Some("A"), 100.0))
  {
    var face := Face([], NaN);
    assert RawDescriptor(face) == [NaN];
    EmptyQueryMatchesFirstEntry(face, ExampleGallery, sqrt, now);
  }

  // ---------------------------------------------------------------------
  // The session object

  /** The detection effect: the gallery it was started with, `Math.sqrt`,
      and the three variables its `detectFaces` closure updates. */
  class Session {
    const gallery: seq<GalleryEntry>
    const sqrt: real -> real
    var lastDetectionTime: int
    var lastDetectedStudent: Option<string>
    var lastConfidence: real

    function State(): SessionState
      reads this
    {
      SessionState(lastDetectionTime, lastDetectedStudent, lastConfidence)
    }

    ghost predicate Valid()
      reads this
    {
      Consistent(State(), gallery)
    }

    /** Starting the effect: `let lastDetectionTime = 0`, `null`, `0`. */
    constructor (gallery: seq<GalleryEntry>, sqrt: real -> real)
      ensures Valid()
      ensures State() == Initial && this.gallery == gallery && this.sqrt == sqrt
    {
      this.gallery := gallery;
      this.sqrt := sqrt;
      lastDetectionTime := 0;
      lastDetectedStudent := None;
      lastConfidence := 0.0;
    }

    /** `detectFaces` called by the interval timer at time `now`. */
    method Tick(now: int, frame: Frame) returns (emission: Emission)
      requires Valid()
      modifies this
      ensures Valid()
      ensures (State(), emission) == Step(old(State()), now, frame, gallery, sqrt)
    {
      ghost var before := State();
      StepPreservesConsistency(before, now, frame, gallery, sqrt);
      emission := Silent;
      if frame.VideoNotReady? {
        return;
      }
      if now - lastDetectionTime < MinInterval {
        return;
      }
      lastDetectionTime := now;
      if frame.Detected? {
        var predictions := frame.predictions;
        if |predictions| > 0 {
          var currentDescriptor := BuildDescriptor(predictions[0]);
          if |gallery| > 0 {
            var bestMatch := FindBestMatch(currentDescriptor, gallery, sqrt);
            var confidenceScore := Confidence(bestMatch);
            if Some(bestMatch.name) != lastDetectedStudent || confidenceScore != lastConfidence {
              lastConfidence := confidenceScore;
              if Accepted(bestMatch) {
                lastDetectedStudent := Some(bestMatch.name);
              } else {
                lastDetectedStudent := None;
              }
              emission := Emit(lastDetectedStudent, confidenceScore);
            }
          }
        } else if lastDetectedStudent != None {
          lastDetectedStudent := None;
          lastConfidence := 0.0;
          emission := Emit(None, 0.0);
        }
      }
    }
  }
}
