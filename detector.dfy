/**
 * The shape of what the blazeface detector reports for one face, as both
 * src/App.tsx and src/train.js consume it, and the descriptor both build
 * from it before any filtering. The detector itself is not modelled: its
 * output is an input of this model.
 */
module Detector {

  /** A JavaScript number as the descriptor code sees it: a finite value, or
      NaN. `undefined` (a landmark with fewer than two coordinates) is read as
      NaN too, since both fail the `typeof v === 'number' && !isNaN(v)` test. */
  datatype Num = Fin(value: real) | NaN

  /** One landmark: its first two coordinates. */
  datatype Point = Point(x: Num, y: Num)

  /** One prediction of the detector; the bounding box is only used for drawing. */
  datatype Face = Face(landmarks: seq<Point>, probability: Num)

  /** `landmarks.map(p => [p[0], p[1]]).flat()`: the coordinates interleaved. */
  function Flatten(landmarks: seq<Point>): (r: seq<Num>)
    ensures |r| == 2 * |landmarks|
    ensures forall k :: 0 <= k < |r| ==>
      r[k] == (if k % 2 == 0 then landmarks[k / 2].x else landmarks[k / 2].y)
  {
    if landmarks == [] then []
    else
      var rest := Flatten(landmarks[1..]);
      assert forall k :: 2 <= k < 2 + |rest| ==> k % 2 == (k - 2) % 2 && k / 2 == (k - 2) / 2 + 1;
      [landmarks[0].x, landmarks[0].y] + rest
  }

  /** `[...flat, probability]`: the descriptor before any filtering, as
      src/train.js stores it and src/App.tsx filters it. It has one slot per
      coordinate and one for the probability, which comes last; landmark i
      supplies slots 2i and 2i+1. */
  function RawDescriptor(face: Face): (d: seq<Num>)
    ensures |d| == 2 * |face.landmarks| + 1
    ensures d[2 * |face.landmarks|] == face.probability
    ensures forall i :: 0 <= i < |face.landmarks| ==>
      d[2 * i] == face.landmarks[i].x && d[2 * i + 1] == face.landmarks[i].y
  {
    var flat := Flatten(face.landmarks);
    assert forall i :: 0 <= i < |face.landmarks| ==>
      (2 * i) % 2 == 0 && (2 * i) / 2 == i && (2 * i + 1) % 2 == 1 && (2 * i + 1) / 2 == i;
    flat + [face.probability]
  }
}
