/**
 * The pure and loop parts of the per-frame recognition step of
 * src/App.tsx: the NaN-filtered query descriptor, the Euclidean distance,
 * the nearest-entry scan over the gallery, the confidence score, the
 * acceptance threshold and the confidence class shown in the UI.
 *
 * `Math.sqrt` is a parameter `sqrt` of the operations that use it; the
 * lemmas that depend on its meaning require `IsSqrt(sqrt)`.
 */
module Recognition {
  import opened Detector

  /** `FACE_MATCH_THRESHOLD`: a match is accepted below this distance. */
  const Threshold: real := 0.6

  /** One record of `student_descriptors.json`. */
  datatype GalleryEntry = GalleryEntry(name: string, descriptor: seq<real>)

  /** A number that may be `Infinity`, as the running best distance can. */
  datatype Extended = Finite(value: real) | Infinity

  /** The running `bestMatch = { name, distance }`. */
  datatype BestMatch = BestMatch(name: string, distance: Extended)

  /** `{ name: '', distance: Infinity }`, the scan's starting point. */
  const NoMatch: BestMatch := BestMatch("", Infinity)

  /** `sqrt` is the non-negative square root on the non-negative reals
      (its value at 0 is spelled out too). */
  ghost predicate IsSqrt(sqrt: real -> real)
  {
    && sqrt(0.0) == 0.0
    && forall x :: 0.0 <= x ==> 0.0 <= sqrt(x) && sqrt(x) * sqrt(x) == x
  }

  // ---------------------------------------------------------------------
  // Descriptor builder

  /** `.filter(v => typeof v === 'number' && !isNaN(v))` over a raw descriptor. */
  function FiniteOnly(s: seq<Num>): (r: seq<real>)
    ensures |r| <= |s|
    ensures |r| == |s| <==> forall i :: 0 <= i < |s| ==> s[i].Fin?
    ensures forall x :: x in r <==> Fin(x) in s
  {
    if s == [] then []
    else if s[0].Fin? then [s[0].value] + FiniteOnly(s[1..])
    else FiniteOnly(s[1..])
  }

  /** Filtering distributes over concatenation: the kept values stay in
      their original order. */
  lemma {:induction false} FiniteOnlyAppend(a: seq<Num>, b: seq<Num>)
    ensures FiniteOnly(a + b) == FiniteOnly(a) + FiniteOnly(b)
  {
    if a == [] {
      assert a + b == b;
    } else {
      assert (a + b)[0] == a[0] && (a + b)[1..] == a[1..] + b;
      FiniteOnlyAppend(a[1..], b);
    }
  }

  /** When nothing is NaN the filter only unwraps the values. */
  lemma {:induction false} FiniteOnlyAllFinite(s: seq<Num>)
    requires forall i :: 0 <= i < |s| ==> s[i].Fin?
    ensures |FiniteOnly(s)| == |s|
    ensures forall i :: 0 <= i < |s| ==> FiniteOnly(s)[i] == s[i].value
  {
    if s != [] {
      FiniteOnlyAllFinite(s[1..]);
    }
  }

  /** The query descriptor of `detectFaces`: the raw descriptor without its NaNs. */
  function BuildDescriptor(face: Face): (d: seq<real>)
    ensures |d| <= 2 * |face.landmarks| + 1
    ensures forall x :: x in d <==> Fin(x) in RawDescriptor(face)
  {
    FiniteOnly(RawDescriptor(face))
  }

  /** With no NaN coordinate and a numeric probability the descriptor has
      full length: the interleaved coordinates, then the probability. */
  lemma BuildDescriptorComplete(face: Face)
    requires forall i :: 0 <= i < |face.landmarks| ==>
      face.landmarks[i].x.Fin? && face.landmarks[i].y.Fin?
    requires face.probability.Fin?
    ensures |BuildDescriptor(face)| == 2 * |face.landmarks| + 1
    ensures BuildDescriptor(face)[2 * |face.landmarks|] == face.probability.value
    ensures forall i :: 0 <= i < |face.landmarks| ==>
      BuildDescriptor(face)[2 * i] == face.landmarks[i].x.value &&
      BuildDescriptor(face)[2 * i + 1] == face.landmarks[i].y.value
  {
    var raw := RawDescriptor(face);
    forall k | 0 <= k < |raw| ensures raw[k].Fin? {
      var flat := Flatten(face.landmarks);
      if k < |flat| {
        assert raw[k] == flat[k];
      }
    }
    FiniteOnlyAllFinite(raw);
  }

  /** The query keeps the numeric coordinates in landmark order, then the
      probability when it is a number. */
  lemma BuildDescriptorOrder(face: Face)
    ensures BuildDescriptor(face) ==
      FiniteOnly(Flatten(face.landmarks)) + (if face.probability.Fin? then [face.probability.value] else [])
  {
    FiniteOnlyAppend(Flatten(face.landmarks), [face.probability]);
  }

  /** A NaN anywhere makes the descriptor strictly shorter. */
  lemma BuildDescriptorShrinks(face: Face, k: nat)
    requires k < |RawDescriptor(face)| && RawDescriptor(face)[k].NaN?
    ensures |BuildDescriptor(face)| < 2 * |face.landmarks| + 1
  {
  }

  // ---------------------------------------------------------------------
  // Distance

  /** `Math.pow(x, 2)`. */
  function Square(x: real): (r: real)
    ensures r >= 0.0
  {
    x * x
  }

  /** The value of `sum` after the first n iterations of `calculateDistance`:
      iteration i reads `desc2[i]`, which is `undefined` past the end of
      `desc2` and turns the sum into NaN for good. */
  function PartialSum(desc1: seq<real>, desc2: seq<real>, n: nat): (r: Num)
    requires n <= |desc1|
    ensures r.Fin? <==> n <= |desc2|
    ensures r.Fin? ==> r.value >= 0.0
  {
    if n == 0 then Fin(0.0)
    else match PartialSum(desc1, desc2, n - 1)
      case NaN => NaN
      case Fin(s) =>
        if n - 1 < |desc2| then Fin(s + Square(desc1[n - 1] - desc2[n - 1])) else NaN
  }

  /** `calculateDistance(desc1, desc2)`: Euclidean distance over the indices of `desc1`. */
  function Distance(desc1: seq<real>, desc2: seq<real>, sqrt: real -> real): Num
  {
    match PartialSum(desc1, desc2, |desc1|)
    case Fin(s) => Fin(sqrt(s))
    case NaN => NaN
  }

  /** The distance is a number exactly when `desc2` is at least as long as
      `desc1`, and then it is never negative. */
  lemma DistanceDefined(desc1: seq<real>, desc2: seq<real>, sqrt: real -> real)
    requires IsSqrt(sqrt)
    ensures Distance(desc1, desc2, sqrt).Fin? <==> |desc1| <= |desc2|
    ensures Distance(desc1, desc2, sqrt).Fin? ==> Distance(desc1, desc2, sqrt).value >= 0.0
  {
  }

  lemma {:induction false} PartialSumSelf(d: seq<real>, n: nat)
    requires n <= |d|
    ensures PartialSum(d, d, n) == Fin(0.0)
  {
    if n > 0 {
      PartialSumSelf(d, n - 1);
    }
  }

  /** The distance from a descriptor to itself is 0. */
  lemma DistanceToSelf(d: seq<real>, sqrt: real -> real)
    requires IsSqrt(sqrt)
    ensures Distance(d, d, sqrt) == Fin(0.0)
  {
    PartialSumSelf(d, |d|);
  }

  lemma {:induction false} PartialSumSymmetric(a: seq<real>, b: seq<real>, n: nat)
    requires n <= |a| == |b|
    ensures PartialSum(a, b, n) == PartialSum(b, a, n)
  {
    if n > 0 {
      PartialSumSymmetric(a, b, n - 1);
      assert Square(a[n - 1] - b[n - 1]) == Square(b[n - 1] - a[n - 1]);
    }
  }

  /** Equal-length descriptors are at the same distance either way round;
      for unequal lengths only the direction whose first argument is the
      shorter one gives a number. */
  lemma DistanceSymmetry(a: seq<real>, b: seq<real>, sqrt: real -> real)
    ensures |a| == |b| ==> Distance(a, b, sqrt) == Distance(b, a, sqrt)
    ensures |b| < |a| ==> Distance(a, b, sqrt).NaN? && Distance(b, a, sqrt).Fin?
  {
    if |a| == |b| {
      PartialSumSymmetric(a, b, |a|);
    }
  }

  /** The loop of `calculateDistance`. */
  method CalculateDistance(desc1: seq<real>, desc2: seq<real>, sqrt: real -> real) returns (d: Num)
    ensures d == Distance(desc1, desc2, sqrt)
  {
    var sum := Fin(0.0);
    for i := 0 to |desc1|
      invariant sum == PartialSum(desc1, desc2, i)
    {
      if sum.Fin? && i < |desc2| {
        sum := Fin(sum.value + Square(desc1[i] - desc2[i]));
      } else {
        sum := NaN;
      }
    }
    d := if sum.Fin? then Fin(sqrt(sum.value)) else NaN;
  }

  // ---------------------------------------------------------------------
  // Nearest match

  /** The distance from the query to one gallery entry. */
  function EntryDistance(query: seq<real>, entry: GalleryEntry, sqrt: real -> real): Num
  {
    Distance(query, entry.descriptor, sqrt)
  }

  /** `d < best`, with `Infinity` above every number. */
  predicate Below(d: real, best: Extended)
  {
    best.Infinity? || d < best.value
  }

  /** One iteration of the scan: replace only on a strictly smaller distance
      (NaN is never smaller than anything). */
  function Improve(best: BestMatch, query: seq<real>, entry: GalleryEntry, sqrt: real -> real): BestMatch
  {
    var d := EntryDistance(query, entry, sqrt);
    if d.Fin? && Below(d.value, best.distance) then BestMatch(entry.name, Finite(d.value)) else best
  }

  /** The value of `bestMatch` after scanning `gallery` from the start. */
  function BestOf(query: seq<real>, gallery: seq<GalleryEntry>, sqrt: real -> real): BestMatch
  {
    if gallery == [] then NoMatch
    else Improve(BestOf(query, gallery[..|gallery| - 1], sqrt), query, gallery[|gallery| - 1], sqrt)
  }

  /** Entry k is at the smallest distance of all entries and strictly closer
      than every entry before it. */
  ghost predicate IsFirstMinimum(query: seq<real>, gallery: seq<GalleryEntry>, sqrt: real -> real, k: int)
  {
    && 0 <= k < |gallery|
    && EntryDistance(query, gallery[k], sqrt).Fin?
    && (forall j :: 0 <= j < |gallery| && EntryDistance(query, gallery[j], sqrt).Fin? ==>
          EntryDistance(query, gallery[k], sqrt).value <= EntryDistance(query, gallery[j], sqrt).value)
    && (forall j :: 0 <= j < k && EntryDistance(query, gallery[j], sqrt).Fin? ==>
          EntryDistance(query, gallery[k], sqrt).value < EntryDistance(query, gallery[j], sqrt).value)
  }

  /** The scan finds the earliest entry at minimum distance; it ends with
      `{ '', Infinity }` exactly when no entry has a numeric distance. */
  lemma {:induction false} BestOfIsFirstMinimum(query: seq<real>, gallery: seq<GalleryEntry>, sqrt: real -> real)
    ensures BestOf(query, gallery, sqrt) == NoMatch <==>
      forall j :: 0 <= j < |gallery| ==> EntryDistance(query, gallery[j], sqrt).NaN?
    ensures BestOf(query, gallery, sqrt) != NoMatch ==>
      exists k :: IsFirstMinimum(query, gallery, sqrt, k) &&
        BestOf(query, gallery, sqrt) ==
          BestMatch(gallery[k].name, Finite(EntryDistance(query, gallery[k], sqrt).value))
  {
    if gallery != [] {
      var n := |gallery| - 1;
      var prefix := gallery[..n];
      BestOfIsFirstMinimum(query, prefix, sqrt);
      var before := BestOf(query, prefix, sqrt);
      var d := EntryDistance(query, gallery[n], sqrt);
      assert forall j :: 0 <= j < n ==> prefix[j] == gallery[j];
      if d.Fin? && Below(d.value, before.distance) {
        assert IsFirstMinimum(query, gallery, sqrt, n);
      } else if before != NoMatch {
        var k :| IsFirstMinimum(query, prefix, sqrt, k) &&
          before == BestMatch(prefix[k].name, Finite(EntryDistance(query, prefix[k], sqrt).value));
        assert IsFirstMinimum(query, gallery, sqrt, k);
      }
    }
  }

  /** When every gallery descriptor is at least as long as the query, a
      non-empty gallery always yields a real match. */
  lemma BestOfWellFormedGallery(query: seq<real>, gallery: seq<GalleryEntry>, sqrt: real -> real)
    requires IsSqrt(sqrt)
    requires |gallery| > 0
    requires forall j :: 0 <= j < |gallery| ==> |query| <= |gallery[j].descriptor|
    ensures BestOf(query, gallery, sqrt).distance.Finite?
    ensures BestOf(query, gallery, sqrt).distance.value >= 0.0
  {
    BestOfIsFirstMinimum(query, gallery, sqrt);
    DistanceDefined(query, gallery[0].descriptor, sqrt);
    var best := BestOf(query, gallery, sqrt);
    if best != NoMatch {
      var k :| IsFirstMinimum(query, gallery, sqrt, k) &&
        best == BestMatch(gallery[k].name, Finite(EntryDistance(query, gallery[k], sqrt).value));
      DistanceDefined(query, gallery[k].descriptor, sqrt);
    }
  }

  /** A finite best match names some gallery entry. */
  lemma BestOfNamesAnEntry(query: seq<real>, gallery: seq<GalleryEntry>, sqrt: real -> real)
    requires BestOf(query, gallery, sqrt).distance.Finite?
    ensures exists k :: 0 <= k < |gallery| && gallery[k].name == BestOf(query, gallery, sqrt).name
  {
    BestOfIsFirstMinimum(query, gallery, sqrt);
  }

  /** The best-match loop of `detectFaces`. */
  method FindBestMatch(query: seq<real>, gallery: seq<GalleryEntry>, sqrt: real -> real) returns (best: BestMatch)
    ensures best == BestOf(query, gallery, sqrt)
  {
    best := NoMatch;
    for i := 0 to |gallery|
      invariant best == BestOf(query, gallery[..i], sqrt)
    {
      assert gallery[..i + 1][..i] == gallery[..i];
      var distance := CalculateDistance(query, gallery[i].descriptor, sqrt);
      if distance.Fin? && Below(distance.value, best.distance) {
        best := BestMatch(gallery[i].name, Finite(distance.value));
      }
    }
    assert gallery[..|gallery|] == gallery;
  }

  // ---------------------------------------------------------------------
  // Confidence and threshold

  /** `Math.max(0, Math.min(100, 100 - distance * 100))`; an infinite
      distance gives 0. */
  function Confidence(best: BestMatch): (score: real)
    ensures 0.0 <= score <= 100.0
  {
    match best.distance
    case Infinity => 0.0
    case Finite(d) =>
      var raw := 100.0 - d * 100.0;
      if raw > 100.0 then 100.0 else if raw < 0.0 then 0.0 else raw
  }

  /** Distance 0 scores 100, distance 1 or more scores 0, and in between
      the score falls linearly. */
  lemma ConfidenceScale(name: string, d: real)
    ensures Confidence(BestMatch(name, Finite(0.0))) == 100.0
    ensures d >= 1.0 ==> Confidence(BestMatch(name, Finite(d))) == 0.0
    ensures 0.0 <= d <= 1.0 ==> Confidence(BestMatch(name, Finite(d))) == 100.0 - 100.0 * d
  {
  }

  /** `bestMatch.distance < FACE_MATCH_THRESHOLD`. */
  predicate Accepted(best: BestMatch)
  {
    best.distance.Finite? && best.distance.value < Threshold
  }

  /** An accepted match always scores above 40. */
  lemma AcceptedConfidence(best: BestMatch)
    requires Accepted(best)
    ensures Confidence(best) > 40.0
  {
  }

  /** A rejected match scores at most 40. */
  lemma RejectedConfidence(best: BestMatch)
    requires !Accepted(best)
    ensures Confidence(best) <= 40.0
  {
  }

  /** The threshold on the distance is the same as one on the squared sum:
      distance < 0.6 exactly when the sum of squares is below 0.36. */
  lemma ThresholdOnSquares(query: seq<real>, entry: GalleryEntry, sqrt: real -> real)
    requires IsSqrt(sqrt)
    requires |query| <= |entry.descriptor|
    ensures var d := EntryDistance(query, entry, sqrt);
      d.Fin? && (d.value < Threshold <==> PartialSum(query, entry.descriptor, |query|).value < 0.36)
  {
    var s := PartialSum(query, entry.descriptor, |query|).value;
    var r := sqrt(s);
    if r < 0.6 {
      assert r * r <= r * 0.6;
      assert r * 0.6 < 0.36;
    } else {
      assert r * r >= r * 0.6;
      assert r * 0.6 >= 0.36;
    }
  }

  // ---------------------------------------------------------------------
  // Confidence class

  /** The CSS class of the confidence bar. */
  datatype ConfidenceLevel = High | Medium | Low

  /** `getConfidenceClass`. */
  function ConfidenceClass(score: real): ConfidenceLevel
  {
    if score >= 80.0 then High else if score >= 50.0 then Medium else Low
  }

  /** The three bands: at least 80, at least 50, below 50. */
  lemma ConfidenceClassBands(score: real)
    ensures ConfidenceClass(score) == High <==> 80.0 <= score
    ensures ConfidenceClass(score) == Medium <==> 50.0 <= score < 80.0
    ensures ConfidenceClass(score) == Low <==> score < 50.0
  {
  }

  function Rank(level: ConfidenceLevel): nat
  {
    match level
    case Low => 0
    case Medium => 1
    case High => 2
  }

  /** A higher score never gets a lower class. */
  lemma ConfidenceClassMonotone(s1: real, s2: real)
    requires s1 <= s2
    ensures Rank(ConfidenceClass(s1)) <= Rank(ConfidenceClass(s2))
  {
  }
}
