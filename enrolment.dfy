/**
 * The enrolment script src/train.js: which photos it reads, the student
 * name it derives from a file name, the descriptor it stores, and the loop
 * that accumulates one entry per photo with a detected face. Reading the
 * directory, loading images, running the detector and writing the JSON
 * file are not modelled: the listing and the detector's answer per file
 * are inputs.
 */
module Enrolment {
  import opened Detector

  /** What processing one photo gives: `loadImage` or `estimateFaces`
      threw, or the detector's predictions. */
  datatype Photo = Failed | Scanned(predictions: seq<Face>)

  /** One `{ name, descriptor }` record of `student_descriptors.json`; the
      descriptor is not filtered, so it may hold NaN. */
  datatype StudentDescriptor = StudentDescriptor(name: string, descriptor: seq<Num>)

  predicate EndsWith(s: string, suffix: string)
  {
    |suffix| <= |s| && s[|s| - |suffix|..] == suffix
  }

  /** `file.endsWith('.jpg') || file.endsWith('.png')`. */
  predicate HasImageExtension(file: string)
  {
    EndsWith(file, ".jpg") || EndsWith(file, ".png")
  }

  /** The `filter` over `readdirSync(studentsDir)`. */
  function ImageFiles(listing: seq<string>): (files: seq<string>)
    ensures |files| <= |listing|
    ensures forall f :: f in files <==> f in listing && HasImageExtension(f)
  {
    if listing == [] then []
    else if HasImageExtension(listing[0]) then [listing[0]] + ImageFiles(listing[1..])
    else ImageFiles(listing[1..])
  }

  /** The filter keeps the listing's order: it distributes over concatenation. */
  lemma {:induction false} ImageFilesAppend(a: seq<string>, b: seq<string>)
    ensures ImageFiles(a + b) == ImageFiles(a) + ImageFiles(b)
  {
    if a == [] {
      assert a + b == b;
    } else {
      assert (a + b)[0] == a[0] && (a + b)[1..] == a[1..] + b;
      ImageFilesAppend(a[1..], b);
    }
  }

  /** `file.replace(/\.(jpg|png)$/, '')`: the pattern is anchored at the end,
      so only a final `.jpg` or `.png` goes. */
  function StudentName(file: string): string
  {
    if HasImageExtension(file) then file[..|file| - 4] else file
  }

  /** Removing the extension undoes appending it, whatever the stem holds
      (`a.png.jpg` names `a.png`). */
  lemma StudentNameStripsExtension(stem: string, ext: string)
    requires ext == ".jpg" || ext == ".png"
    ensures StudentName(stem + ext) == stem
  {
    assert (stem + ext)[|stem + ext| - 4..] == ext;
    assert (stem + ext)[..|stem|] == stem;
  }

  /** An image file is its student name followed by its four-character
      extension; any other name is left alone. */
  lemma StudentNameSplitsFile(file: string)
    ensures HasImageExtension(file) ==>
      |StudentName(file)| == |file| - 4 && StudentName(file) + file[|file| - 4..] == file
    ensures !HasImageExtension(file) ==> StudentName(file) == file
  {
    if HasImageExtension(file) {
      assert file[..|file| - 4] + file[|file| - 4..] == file;
    }
  }

  /** A photo contributes an entry exactly when it was read and at least one
      face was found in it. */
  predicate Usable(photo: Photo)
  {
    photo.Scanned? && |photo.predictions| > 0
  }

  /** The entry of a usable photo: its name and the first prediction's descriptor. */
  function EntryOf(file: string, photo: Photo): StudentDescriptor
    requires Usable(photo)
  {
    StudentDescriptor(StudentName(file), RawDescriptor(photo.predictions[0]))
  }

  /** `studentDescriptors` after the loop has processed `files`. */
  function Enrol(files: seq<string>, detect: string -> Photo): seq<StudentDescriptor>
  {
    if files == [] then []
    else
      var done := Enrol(files[..|files| - 1], detect);
      var file := files[|files| - 1];
      if Usable(detect(file)) then done + [EntryOf(file, detect(file))] else done
  }

  /** The files whose photo is usable, in order. */
  function UsableFiles(files: seq<string>, detect: string -> Photo): (u: seq<string>)
    ensures |u| <= |files|
    ensures forall f :: f in u <==> f in files && Usable(detect(f))
  {
    if files == [] then []
    else
      var u := UsableFiles(files[..|files| - 1], detect);
      var file := files[|files| - 1];
      assert forall f :: f in files <==> f in files[..|files| - 1] || f == file;
      if Usable(detect(file)) then u + [file] else u
  }

  /** The filter keeps the listing's order: it distributes over concatenation,
      so a usable file listed before another stays before it. */
  lemma {:induction false} UsableFilesAppend(a: seq<string>, b: seq<string>, detect: string -> Photo)
    ensures UsableFiles(a + b, detect) == UsableFiles(a, detect) + UsableFiles(b, detect)
  {
    if b != [] {
      assert (a + b)[..|a + b| - 1] == a + b[..|b| - 1] && (a + b)[|a + b| - 1] == b[|b| - 1];
      UsableFilesAppend(a, b[..|b| - 1], detect);
    } else {
      assert a + b == a;
    }
  }

  /** The output holds one entry per usable photo, in listing order, each
      named after its file and carrying its photo's first descriptor. */
  lemma {:induction false} EnrolIsUsableFiles(files: seq<string>, detect: string -> Photo)
    ensures var u := UsableFiles(files, detect);
      |Enrol(files, detect)| == |u| &&
      forall i :: 0 <= i < |u| ==> Usable(detect(u[i])) && Enrol(files, detect)[i] == EntryOf(u[i], detect(u[i]))
  {
    if files != [] {
      EnrolIsUsableFiles(files[..|files| - 1], detect);
    }
  }

  /** A photo that failed or showed no face is skipped without affecting the
      entries of the photos around it. */
  lemma {:induction false} EnrolSkipsUnusable(before: seq<string>, file: string, after: seq<string>,
                                              detect: string -> Photo)
    requires !Usable(detect(file))
    ensures Enrol(before + [file] + after, detect) == Enrol(before + after, detect)
  {
    var whole, rest := before + [file] + after, before + after;
    if after == [] {
      assert whole[..|whole| - 1] == before && whole[|whole| - 1] == file;
      assert rest == before;
    } else {
      var n := |after| - 1;
      EnrolSkipsUnusable(before, file, after[..n], detect);
      assert whole[..|whole| - 1] == before + [file] + after[..n] && whole[|whole| - 1] == after[n];
      assert rest[..|rest| - 1] == before + after[..n] && rest[|rest| - 1] == after[n];
    }
  }

  /** The enrolment loop of `train`, returning the `outputData` it writes. */
  method Train(listing: seq<string>, detect: string -> Photo) returns (outputData: seq<StudentDescriptor>)
    ensures outputData == Enrol(ImageFiles(listing), detect)
  {
    var studentFiles := ImageFiles(listing);
    var studentDescriptors: seq<StudentDescriptor> := [];
    for i := 0 to |studentFiles|
      invariant studentDescriptors == Enrol(studentFiles[..i], detect)
    {
      assert studentFiles[..i + 1][..i] == studentFiles[..i];
      var file := studentFiles[i];
      var studentName := StudentName(file);
      match detect(file) {
        case Failed =>
        case Scanned(predictions) =>
          if |predictions| > 0 {
            var descriptor := RawDescriptor(predictions[0]);
            studentDescriptors := studentDescriptors + [StudentDescriptor(studentName, descriptor)];
          }
      }
    }
    assert studentFiles[..|studentFiles|] == studentFiles;
    // `Array.from` copies each descriptor: the written records are the entries.
    outputData := studentDescriptors;
  }

  /** At most one entry per image file, and each is named after an image
      file of the listing. */
  lemma TrainOutputBounds(listing: seq<string>, detect: string -> Photo)
    ensures |Enrol(ImageFiles(listing), detect)| <= |ImageFiles(listing)| <= |listing|
    ensures forall i :: 0 <= i < |Enrol(ImageFiles(listing), detect)| ==>
      exists f :: f in listing && HasImageExtension(f) && Enrol(ImageFiles(listing), detect)[i].name == StudentName(f)
  {
    var files := ImageFiles(listing);
    EnrolIsUsableFiles(files, detect);
    var u := UsableFiles(files, detect);
    forall i | 0 <= i < |Enrol(files, detect)|
      ensures exists f :: f in listing && HasImageExtension(f) && Enrol(files, detect)[i].name == StudentName(f)
    {
      assert u[i] in u;
    }
  }
}
