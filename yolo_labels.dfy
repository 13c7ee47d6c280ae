/** Final_Project/Soru2/make_yolo_labels.py: for every digit-named class
    directory, each image's largest blob becomes a YOLO label
    `class_id xc yc w h` with coordinates relative to the image size.
    OpenCV's part (decoding, blurring, Otsu, morphology, contours) is an
    input: for each file, whether it decodes, its size, and the bounding
    rectangle of its largest contour. */
module YoloLabels {
  import opened Base
  import opened Text

  /** An image dimension; a decoded image is never empty. */
  type Dim = n: int | n > 0 witness 1

  /** A bounding rectangle in pixels: top-left corner, width, height. */
  datatype Box = Box(x: int, y: int, w: int, h: int)

  /** A YOLO box: centre and size as fractions of the image size. */
  datatype YoloBox = YoloBox(xc: real, yc: real, w: real, h: real)

  /** Boxes with a smaller area are taken for noise. */
  const MinArea: int := 200

  /** The end of `find_bbox`: the largest contour's rectangle, unless there
      is none or its area is below 200 pixels. */
  function RejectNoise(largest: Option<Box>): (r: Option<Box>)
    ensures r.Some? <==> largest.Some? && largest.value.w * largest.value.h >= MinArea
    ensures r.Some? ==> r == largest
  {
    match largest
    case None => None
    case Some(b) => if b.w * b.h < MinArea then None else Some(b)
  }

  /** `to_yolo`, in exact rational arithmetic: the box's centre and size
      divided by the image width and height. Multiplying back by the image
      size recovers the pixel box. */
  function ToYolo(b: Box, imgW: Dim, imgH: Dim): (r: YoloBox)
    ensures r.w * imgW as real == b.w as real && r.h * imgH as real == b.h as real
    ensures r.xc * imgW as real - r.w * imgW as real / 2.0 == b.x as real
    ensures r.yc * imgH as real - r.h * imgH as real / 2.0 == b.y as real
  {
    var xc := (b.x as real + b.w as real / 2.0) / imgW as real;
    var yc := (b.y as real + b.h as real / 2.0) / imgH as real;
    var ww := b.w as real / imgW as real;
    var hh := b.h as real / imgH as real;
    YoloBox(xc, yc, ww, hh)
  }

  predicate Inside(b: Box, imgW: Dim, imgH: Dim) {
    0 <= b.x && 0 <= b.y && 0 <= b.w && 0 <= b.h && b.x + b.w <= imgW && b.y + b.h <= imgH
  }

  predicate InUnit(v: real) {
    0.0 <= v <= 1.0
  }

  predicate Normalised(r: YoloBox) {
    InUnit(r.xc) && InUnit(r.yc) && InUnit(r.w) && InUnit(r.h)
  }

  lemma FractionInUnit(a: real, d: real)
    requires 0.0 <= a <= d && d > 0.0
    ensures InUnit(a / d)
  {
    assert a / d * d == a;
  }

  /** A box inside the image gives four YOLO values in [0, 1]. */
  lemma ToYoloNormalised(b: Box, imgW: Dim, imgH: Dim)
    requires Inside(b, imgW, imgH)
    ensures Normalised(ToYolo(b, imgW, imgH))
  {
    FractionInUnit(b.x as real + b.w as real / 2.0, imgW as real);
    FractionInUnit(b.y as real + b.h as real / 2.0, imgH as real);
    FractionInUnit(b.w as real, imgW as real);
    FractionInUnit(b.h as real, imgH as real);
  }

  /** The directory filter: a name made only of digits is a class, whose id
      is the name's value; any other name is skipped. */
  function ClassId(name: string): (r: Option<nat>)
    ensures r.Some? <==> name != "" && AllDigits(name)
    ensures r.Some? ==> r.value == ParseDecimal(name)
  {
    if name != "" && AllDigits(name) then Some(ParseDecimal(name)) else None
  }

  /** The directory named by a class id's numeral is that class. */
  lemma ClassIdOfDecimal(n: nat)
    ensures ClassId(Decimal(n)) == Some(n)
  {
    ParseDecimalOfDecimal(n);
  }

  predicate IsUpper(c: char) {
    'A' <= c <= 'Z'
  }

  function LowerChar(c: char): char {
    if IsUpper(c) then (c as int + 32) as char else c
  }

  /** ASCII lower-casing of a file name. */
  function AsciiLower(s: string): (r: string)
    ensures |r| == |s|
  {
    if s == [] then "" else AsciiLower(s[..|s| - 1]) + [LowerChar(s[|s| - 1])]
  }

  /** Lower-casing leaves no upper-case letter, keeps every other character
      and shifts each upper-case letter to its lower-case one. */
  lemma {:induction false} AsciiLowerChars(s: string)
    ensures forall i :: 0 <= i < |s| ==> !IsUpper(AsciiLower(s)[i])
    ensures forall i :: 0 <= i < |s| && !IsUpper(s[i]) ==> AsciiLower(s)[i] == s[i]
    ensures forall i :: 0 <= i < |s| && IsUpper(s[i]) ==> AsciiLower(s)[i] as int == s[i] as int + 32
    decreases |s|
  {
    if s != [] {
      AsciiLowerChars(s[..|s| - 1]);
    }
  }

  /** The names of the copied image and of its label file. */
  datatype OutputNames = OutputNames(imageName: string, labelName: string)

  /** `out_stem = f"{class_id}_{stem}"`; the image keeps its suffix in lower
      case and the label gets ".txt". Both names share the same stem, so two
      images differing only in their suffix get the same label name. */
  function OutputNamesFor(classId: nat, stem: string, suffix: string): OutputNames
  {
    var outStem := Decimal(classId) + "_" + stem;
    OutputNames(outStem + AsciiLower(suffix), outStem + ".txt")
  }

  /** A name made of a class numeral and a text starting with "_" reads back,
      up to its first underscore, as that class. */
  lemma ClassIdOfPrefix(classId: nat, rest: string)
    requires rest != [] && rest[0] == '_'
    ensures var name := Decimal(classId) + rest;
      ClassId(name[..FirstIndex(name, '_')]) == Some(classId)
  {
    var d := Decimal(classId);
    DigitsHaveNoSeparator(d, '_');
    FirstIndexAfter(d, rest, '_');
    assert (d + rest)[..|d|] == d;
    ClassIdOfDecimal(classId);
  }

  /** Both output names start with the class numeral, an underscore and the
      original stem; the text before the first underscore reads back as the
      class id. */
  lemma OutputNamesShape(classId: nat, stem: string, suffix: string)
    ensures var r := OutputNamesFor(classId, stem, suffix);
      var outStem := Decimal(classId) + "_" + stem;
      r.imageName == outStem + AsciiLower(suffix) &&
      r.labelName == outStem + ".txt" &&
      ClassId(r.labelName[..FirstIndex(r.labelName, '_')]) == Some(classId) &&
      ClassId(r.imageName[..FirstIndex(r.imageName, '_')]) == Some(classId)
  {
    var d := Decimal(classId);
    var low := AsciiLower(suffix);
    var r := OutputNamesFor(classId, stem, suffix);
    assert r.labelName == d + ("_" + stem + ".txt");
    assert r.imageName == d + ("_" + stem + low);
    ClassIdOfPrefix(classId, "_" + stem + ".txt");
    ClassIdOfPrefix(classId, "_" + stem + low);
  }

  /** What OpenCV makes of a readable image: its size and the bounding
      rectangle of its largest contour, if any. */
  datatype Decoded = Decoded(width: Dim, height: Dim, largest: Option<Box>)

  /** An entry of a class directory: its stem, its suffix, and its decoding
      (None when `cv2.imread` returns None, as for a sub-directory). Its
      name is the stem followed by the suffix; a name with no dot after its
      first character, such as `.jpg`, has the whole name as its stem and an
      empty suffix. */
  datatype ImageFile = ImageFile(stem: string, suffix: string, decoded: Option<Decoded>)

  /** Whether an entry's stem and suffix are pathlib's split of its name:
      the suffix runs from the name's last dot to its end when that dot is
      neither the first nor the last character, and is empty otherwise. */
  predicate PathlibSplit(f: ImageFile) {
    if f.suffix == [] then
      |f.stem| == 0 || f.stem[|f.stem| - 1] == '.' || '.' !in f.stem[1..]
    else
      |f.stem| >= 1 && |f.suffix| >= 2 && f.suffix[0] == '.' && '.' !in f.suffix[1..]
  }

  /** An entry of the source directory: its name, whether it is a directory,
      and the files in it. */
  datatype Entry = Entry(name: string, isDir: bool, files: seq<ImageFile>)

  /** One written label: output image name, label file name, class, box. */
  datatype LabelRecord = LabelRecord(imageName: string, labelName: string, classId: nat, box: YoloBox)

  /** The glob patterns, in the order they are tried. */
  const Extensions: seq<string> := [".jpg", ".jpeg", ".png"]

  function FileName(f: ImageFile): string {
    f.stem + f.suffix
  }

  predicate EndsWith(s: string, ext: string) {
    |s| >= |ext| && s[|s| - |ext|..] == ext
  }

  /** A name as the glob compares it: `pathlib`'s glob compares names as
      they are on a case-sensitive file system and ignoring case on Windows;
      `foldCase` chooses between the two. */
  function Folded(name: string, foldCase: bool): (r: string)
    ensures |r| == |name|
  {
    if foldCase then AsciiLower(name) else name
  }

  /** Whether a glob `*<ext>` matches a file name: the wildcard matches any
      start, the empty one and one beginning with a dot included. */
  predicate Matches(name: string, ext: string, foldCase: bool) {
    EndsWith(Folded(name, foldCase), ext)
  }

  /** The files a glob `*<ext>` returns, in directory order: those whose
      name ends in `ext`. */
  function WithSuffix(files: seq<ImageFile>, ext: string, foldCase: bool): (r: seq<ImageFile>)
    ensures forall k :: 0 <= k < |r| ==> Matches(FileName(r[k]), ext, foldCase) && r[k] in files
    ensures forall f :: f in files && Matches(FileName(f), ext, foldCase) ==> f in r
  {
    if files == [] then []
    else
      var f := files[|files| - 1];
      WithSuffix(files[..|files| - 1], ext, foldCase) + (if Matches(FileName(f), ext, foldCase) then [f] else [])
  }

  /** The image list after the first k patterns. */
  function Globbed(files: seq<ImageFile>, k: int, foldCase: bool): seq<ImageFile>
    requires 0 <= k <= |Extensions|
  {
    if k == 0 then [] else Globbed(files, k - 1, foldCase) + WithSuffix(files, Extensions[k - 1], foldCase)
  }

  /** The image list holds exactly the directory's files that one of the
      first k patterns matches. */
  lemma {:induction false} GlobbedFiles(files: seq<ImageFile>, k: int, foldCase: bool)
    requires 0 <= k <= |Extensions|
    ensures forall f :: f in Globbed(files, k, foldCase) ==>
      f in files && exists j :: 0 <= j < k && Matches(FileName(f), Extensions[j], foldCase)
    ensures forall f, j :: f in files && 0 <= j < k && Matches(FileName(f), Extensions[j], foldCase) ==>
      f in Globbed(files, k, foldCase)
    decreases k
  {
    if k > 0 {
      GlobbedFiles(files, k - 1, foldCase);
    }
  }

  /** Lower-casing works character by character, so it distributes over
      concatenation. */
  lemma {:induction false} LowerConcat(s: string, t: string)
    ensures AsciiLower(s + t) == AsciiLower(s) + AsciiLower(t)
    decreases |t|
  {
    if t == [] {
      assert s + t == s;
    } else {
      var init := t[..|t| - 1];
      assert (s + t)[..|s + t| - 1] == s + init;
      LowerConcat(s, init);
    }
  }

  lemma LowerOfJPG()
    ensures AsciiLower(".JPG") == ".jpg"
  {
    assert ".JPG"[..3] == ".JP" && ".JP"[..2] == ".J" && ".J"[..1] == ".";
  }

  lemma EndsWithOwnEnd(a: string, b: string)
    ensures EndsWith(a + b, b)
  {
    assert (a + b)[|a + b| - |b|..] == b;
  }

  /** A name ending in a four-character extension beginning with "." ends in
      none of the patterns' extensions but that one. */
  lemma EndingOf(name: string, sfx: string)
    requires |sfx| == 4 && sfx[0] == '.' && EndsWith(name, sfx)
    ensures EndsWith(name, ".jpg") <==> sfx == ".jpg"
    ensures EndsWith(name, ".png") <==> sfx == ".png"
    ensures !EndsWith(name, ".jpeg")
  {
  }

  /** How the name of a file ending in a lower-case extension reads once folded. */
  lemma FoldedEnding(stem: string, sfx: string, foldCase: bool)
    requires sfx == ".jpg" || sfx == ".png"
    ensures EndsWith(Folded(stem + sfx, foldCase), sfx)
  {
    if foldCase {
      LowerConcat(stem, sfx);
      assert AsciiLower(sfx) == sfx by {
        AsciiLowerChars(sfx);
      }
      EndsWithOwnEnd(AsciiLower(stem), sfx);
    } else {
      EndsWithOwnEnd(stem, sfx);
    }
  }

  /** A name ending in ".jpg" or ".png" is matched only by that pattern,
      whether or not the glob ignores case. */
  lemma MatchesOfEnding(stem: string, sfx: string, foldCase: bool)
    requires sfx == ".jpg" || sfx == ".png"
    ensures Matches(stem + sfx, Extensions[0], foldCase) <==> sfx == ".jpg"
    ensures !Matches(stem + sfx, Extensions[1], foldCase)
    ensures Matches(stem + sfx, Extensions[2], foldCase) <==> sfx == ".png"
  {
    FoldedEnding(stem, sfx, foldCase);
    EndingOf(Folded(stem + sfx, foldCase), sfx);
  }

  lemma WithSuffixOfOne(f: ImageFile, ext: string, foldCase: bool)
    ensures WithSuffix([f], ext, foldCase) == if Matches(FileName(f), ext, foldCase) then [f] else []
  {
    assert [f][..0] == [];
  }

  /** The image list of a directory holding a single file. */
  lemma GlobbedOfOne(f: ImageFile, foldCase: bool)
    ensures Globbed([f], |Extensions|, foldCase) ==
      WithSuffix([f], Extensions[0], foldCase) + WithSuffix([f], Extensions[1], foldCase) +
      WithSuffix([f], Extensions[2], foldCase)
  {
    var w0, w1, w2 := WithSuffix([f], Extensions[0], foldCase), WithSuffix([f], Extensions[1], foldCase),
      WithSuffix([f], Extensions[2], foldCase);
    assert Globbed([f], 1, foldCase) == [] + w0 == w0;
    assert Globbed([f], 2, foldCase) == w0 + w1;
    assert Globbed([f], 3, foldCase) == w0 + w1 + w2;
  }

  /** The image list of a directory holding a single file, by pattern. */
  lemma GlobbedOfOneMatches(f: ImageFile, foldCase: bool)
    ensures Globbed([f], |Extensions|, foldCase) ==
      (if Matches(FileName(f), Extensions[0], foldCase) then [f] else []) +
      (if Matches(FileName(f), Extensions[1], foldCase) then [f] else []) +
      (if Matches(FileName(f), Extensions[2], foldCase) then [f] else [])
  {
    GlobbedOfOne(f, foldCase);
    WithSuffixOfOne(f, Extensions[0], foldCase);
    WithSuffixOfOne(f, Extensions[1], foldCase);
    WithSuffixOfOne(f, Extensions[2], foldCase);
  }

  /** Which patterns match a name ending in ".JPG", folding case or not. */
  lemma UpperCaseMatches(stem: string)
    ensures Matches(stem + ".JPG", Extensions[0], true)
    ensures !Matches(stem + ".JPG", Extensions[1], true) && !Matches(stem + ".JPG", Extensions[2], true)
    ensures !Matches(stem + ".JPG", Extensions[0], false) && !Matches(stem + ".JPG", Extensions[1], false) &&
      !Matches(stem + ".JPG", Extensions[2], false)
  {
    LowerOfJPG();
    LowerConcat(stem, ".JPG");
    EndsWithOwnEnd(AsciiLower(stem), ".jpg");
    EndingOf(AsciiLower(stem + ".JPG"), ".jpg");
    EndsWithOwnEnd(stem, ".JPG");
    EndingOf(stem + ".JPG", ".JPG");
  }

  lemma UpperCaseGlob(f: ImageFile)
    requires f.suffix == ".JPG"
    ensures Globbed([f], |Extensions|, true) == [f]
    ensures Globbed([f], |Extensions|, false) == []
  {
    UpperCaseMatches(f.stem);
    GlobbedOfOneMatches(f, true);
    GlobbedOfOneMatches(f, false);
  }

  /** A file named `a.JPG` is an image where the glob ignores case, and is
      skipped where it does not; its copy is named with ".jpg". */
  lemma UpperCaseSuffix(classId: nat, f: ImageFile)
    requires PathlibSplit(f) && f.suffix == ".JPG"
    ensures Globbed([f], |Extensions|, true) == [f]
    ensures Globbed([f], |Extensions|, false) == []
    ensures OutputNamesFor(classId, f.stem, f.suffix).imageName ==
      Decimal(classId) + "_" + f.stem + ".jpg"
  {
    UpperCaseGlob(f);
    LowerOfJPG();
  }

  lemma DotNameGlob(f: ImageFile, foldCase: bool)
    requires f.stem == ".jpg" && f.suffix == ""
    ensures Globbed([f], |Extensions|, foldCase) == [f]
  {
    assert FileName(f) == "" + ".jpg";
    MatchesOfEnding("", ".jpg", foldCase);
    GlobbedOfOneMatches(f, foldCase);
  }

  /** A file named exactly `.jpg` (stem ".jpg", no suffix) is an image for
      the glob, and its label is `<class_id>_.jpg.txt`. */
  lemma DotNameVisited(classId: nat, f: ImageFile, foldCase: bool)
    requires PathlibSplit(f) && f.stem == ".jpg" && f.suffix == ""
    ensures Globbed([f], |Extensions|, foldCase) == [f]
    ensures OutputNamesFor(classId, f.stem, f.suffix).labelName == Decimal(classId) + "_.jpg.txt"
  {
    DotNameGlob(f, foldCase);
    var d := Decimal(classId);
    AppendAssoc(d, "_", ".jpg");
    AppendAssoc(d, "_" + ".jpg", ".txt");
    assert "_" + ".jpg" + ".txt" == "_.jpg.txt";
  }

  predicate IsClassDir(e: Entry) {
    e.isDir && ClassId(e.name).Some?
  }

  /** What happens to one image: a label, or a failure (unreadable, or no
      box that is not noise). */
  function Outcome(classId: nat, f: ImageFile): (r: Option<LabelRecord>)
    ensures r.Some? <==> f.decoded.Some? && RejectNoise(f.decoded.value.largest).Some?
    ensures r.Some? ==>
      r.value.classId == classId &&
      r.value.labelName == OutputNamesFor(classId, f.stem, f.suffix).labelName &&
      r.value.box == ToYolo(f.decoded.value.largest.value, f.decoded.value.width, f.decoded.value.height)
  {
    match f.decoded
    case None => None
    case Some(d) =>
      match RejectNoise(d.largest)
      case None => None
      case Some(b) =>
        var names := OutputNamesFor(classId, f.stem, f.suffix);
        Some(LabelRecord(names.imageName, names.labelName, classId, ToYolo(b, d.width, d.height)))
  }

  /** The labels written for the first k images of a class. */
  function ClassRecords(classId: nat, imgs: seq<ImageFile>, k: int): seq<LabelRecord>
    requires 0 <= k <= |imgs|
  {
    if k == 0 then []
    else
      var rest := ClassRecords(classId, imgs, k - 1);
      match Outcome(classId, imgs[k - 1])
      case None => rest
      case Some(rec) => rest + [rec]
  }

  /** The labels written for the first n directory entries. */
  function Records(entries: seq<Entry>, n: int, foldCase: bool): seq<LabelRecord>
    requires 0 <= n <= |entries|
  {
    if n == 0 then []
    else
      var e := entries[n - 1];
      Records(entries, n - 1, foldCase) +
        (if IsClassDir(e) then
           var imgs := Globbed(e.files, |Extensions|, foldCase);
           ClassRecords(ClassId(e.name).value, imgs, |imgs|)
         else [])
  }

  /** The number of images visited in the first n directory entries. */
  function Visited(entries: seq<Entry>, n: int, foldCase: bool): nat
    requires 0 <= n <= |entries|
  {
    if n == 0 then 0
    else
      Visited(entries, n - 1, foldCase) +
        (if IsClassDir(entries[n - 1]) then |Globbed(entries[n - 1].files, |Extensions|, foldCase)| else 0)
  }

  /** The top-level loop: every image of every class directory either yields a
      label (`ok += 1`) or is counted as a failure (`fail += 1`), so
      ok + fail is the number of images visited and ok the number of labels. */
  method MakeLabels(entries: seq<Entry>, foldCase: bool) returns (ok: nat, fail: nat, records: seq<LabelRecord>)
    ensures records == Records(entries, |entries|, foldCase)
    ensures ok == |records|
    ensures ok + fail == Visited(entries, |entries|, foldCase)
  {
    ok, fail, records := 0, 0, [];
    for n := 0 to |entries|
      invariant records == Records(entries, n, foldCase)
      invariant ok == |records|
      invariant ok + fail == Visited(entries, n, foldCase)
    {
      var classDir := entries[n];
      if !classDir.isDir {
        continue;
      }
      var classId := ClassId(classDir.name);
      if classId.None? {
        continue;
      }
      var imgs: seq<ImageFile> := [];
      for k := 0 to |Extensions|
        invariant imgs == Globbed(classDir.files, k, foldCase)
      {
        imgs := imgs + WithSuffix(classDir.files, Extensions[k], foldCase);
      }
      ghost var before := records;
      for k := 0 to |imgs|
        invariant records == before + ClassRecords(classId.value, imgs, k)
        invariant ok == |records|
        invariant ok + fail == Visited(entries, n, foldCase) + k
      {
        var f := imgs[k];
        if f.decoded.None? {
          fail := fail + 1;
          continue;
        }
        var d := f.decoded.value;
        var bbox := RejectNoise(d.largest);
        if bbox.None? {
          fail := fail + 1;
          continue;
        }
        var names := OutputNamesFor(classId.value, f.stem, f.suffix);
        records := records + [LabelRecord(names.imageName, names.labelName, classId.value, ToYolo(bbox.value, d.width, d.height))];
        ok := ok + 1;
      }
    }
  }

  /** OpenCV's rectangles lie inside their images. */
  predicate BoxesInside(files: seq<ImageFile>) {
    forall k :: 0 <= k < |files| && files[k].decoded.Some? && files[k].decoded.value.largest.Some? ==>
      Inside(files[k].decoded.value.largest.value, files[k].decoded.value.width, files[k].decoded.value.height)
  }

  lemma {:induction false} ClassRecordsSound(classId: nat, imgs: seq<ImageFile>, k: int)
    requires 0 <= k <= |imgs| && BoxesInside(imgs)
    ensures forall j :: 0 <= j < |ClassRecords(classId, imgs, k)| ==>
      var rec := ClassRecords(classId, imgs, k)[j];
      rec.classId == classId && Normalised(rec.box)
    decreases k
  {
    if k > 0 {
      ClassRecordsSound(classId, imgs, k - 1);
      var f := imgs[k - 1];
      if f.decoded.Some? && f.decoded.value.largest.Some? {
        var d := f.decoded.value;
        ToYoloNormalised(d.largest.value, d.width, d.height);
      }
    }
  }

  lemma BoxesInsideSub(files: seq<ImageFile>, sub: seq<ImageFile>)
    requires BoxesInside(files) && forall f :: f in sub ==> f in files
    ensures BoxesInside(sub)
  {
    forall k | 0 <= k < |sub| && sub[k].decoded.Some? && sub[k].decoded.value.largest.Some?
      ensures Inside(sub[k].decoded.value.largest.value, sub[k].decoded.value.width, sub[k].decoded.value.height)
    {
      assert sub[k] in files;
    }
  }

  /** Every label belongs to a digit-named directory's class, and when
      OpenCV's rectangles lie inside their images every label's four values
      are in [0, 1]. */
  lemma {:induction false} RecordsSound(entries: seq<Entry>, n: int, foldCase: bool)
    requires 0 <= n <= |entries|
    requires forall i :: 0 <= i < |entries| ==> BoxesInside(entries[i].files)
    ensures forall j :: 0 <= j < |Records(entries, n, foldCase)| ==>
      Normalised(Records(entries, n, foldCase)[j].box) &&
      exists i :: 0 <= i < n && IsClassDir(entries[i]) && Records(entries, n, foldCase)[j].classId == ClassId(entries[i].name).value
    decreases n
  {
    if n > 0 {
      RecordsSound(entries, n - 1, foldCase);
      var e := entries[n - 1];
      if IsClassDir(e) {
        var imgs := Globbed(e.files, |Extensions|, foldCase);
        GlobbedFiles(e.files, |Extensions|, foldCase);
        BoxesInsideSub(e.files, imgs);
        ClassRecordsSound(ClassId(e.name).value, imgs, |imgs|);
      }
    }
  }

  /** A file of the label directory: one already there before the run,
      with whatever text it holds, or one a record of this run wrote. */
  datatype LabelFile = Kept(text: string) | Written(record: LabelRecord)

  /** The label files on disk after the records are written in order into a
      directory that already holds `initial` (`mkdir(exist_ok=True)` keeps
      an existing directory and its files): `write_text` creates or
      replaces the file of each record's label name, and leaves every
      other file as it was. */
  function LabelFiles(initial: map<string, string>, records: seq<LabelRecord>): (m: map<string, LabelFile>)
    ensures forall j :: 0 <= j < |records| ==> records[j].labelName in m && m[records[j].labelName].Written?
    ensures forall name :: name in m ==> name in initial || exists j :: 0 <= j < |records| && records[j].labelName == name
  {
    if records == [] then map name | name in initial :: Kept(initial[name])
    else
      var last := records[|records| - 1];
      LabelFiles(initial, records[..|records| - 1])[last.labelName := Written(last)]
  }

  /** A file that no record names keeps the text it had before the run. */
  lemma {:induction false} LabelFilesKept(initial: map<string, string>, records: seq<LabelRecord>, name: string)
    requires name in initial
    requires forall j :: 0 <= j < |records| ==> records[j].labelName != name
    ensures name in LabelFiles(initial, records) && LabelFiles(initial, records)[name] == Kept(initial[name])
    decreases |records|
  {
    if records != [] {
      LabelFilesKept(initial, records[..|records| - 1], name);
    }
  }

  /** A label file holds the last record written under its name. */
  lemma {:induction false} LabelFilesLast(initial: map<string, string>, records: seq<LabelRecord>, j: int)
    requires 0 <= j < |records|
    requires forall l :: j < l < |records| ==> records[l].labelName != records[j].labelName
    ensures LabelFiles(initial, records)[records[j].labelName] == Written(records[j])
    decreases |records|
  {
    if j < |records| - 1 {
      var init := records[..|records| - 1];
      LabelFilesLast(initial, init, j);
    }
  }

  lemma WithSuffixOfPair(g: ImageFile, f: ImageFile, ext: string, foldCase: bool)
    ensures WithSuffix([g, f], ext, foldCase) ==
      (if Matches(FileName(g), ext, foldCase) then [g] else []) + (if Matches(FileName(f), ext, foldCase) then [f] else [])
  {
    assert WithSuffix([g], ext, foldCase) == (if Matches(FileName(g), ext, foldCase) then [g] else []) by {
      assert [g][..0] == [];
    }
    assert [g, f][..1] == [g];
  }

  lemma JpgPngMatches(f: ImageFile, g: ImageFile, foldCase: bool)
    requires f.suffix == ".jpg" && g.suffix == ".png"
    ensures Matches(FileName(f), Extensions[0], foldCase) && !Matches(FileName(f), Extensions[1], foldCase) &&
      !Matches(FileName(f), Extensions[2], foldCase)
    ensures !Matches(FileName(g), Extensions[0], foldCase) && !Matches(FileName(g), Extensions[1], foldCase) &&
      Matches(FileName(g), Extensions[2], foldCase)
  {
    MatchesOfEnding(f.stem, f.suffix, foldCase);
    MatchesOfEnding(g.stem, g.suffix, foldCase);
  }

  /** The image list of a directory holding two files. */
  lemma GlobbedOfPair(g: ImageFile, f: ImageFile, foldCase: bool)
    ensures Globbed([g, f], |Extensions|, foldCase) ==
      WithSuffix([g, f], Extensions[0], foldCase) + WithSuffix([g, f], Extensions[1], foldCase) +
      WithSuffix([g, f], Extensions[2], foldCase)
  {
    var files := [g, f];
    var w0, w1, w2 := WithSuffix(files, Extensions[0], foldCase), WithSuffix(files, Extensions[1], foldCase),
      WithSuffix(files, Extensions[2], foldCase);
    assert Globbed(files, 1, foldCase) == [] + w0 == w0;
    assert Globbed(files, 2, foldCase) == w0 + w1;
    assert Globbed(files, 3, foldCase) == w0 + w1 + w2;
  }

  /** Where `a.jpg` and `a.png` are the only files of a class directory, the
      glob visits `a.jpg` first. */
  lemma GlobJpgBeforePng(f: ImageFile, g: ImageFile, foldCase: bool)
    requires f.suffix == ".jpg" && g.suffix == ".png"
    ensures Globbed([g, f], |Extensions|, foldCase) == [f, g]
  {
    JpgPngMatches(f, g, foldCase);
    WithSuffixOfPair(g, f, Extensions[0], foldCase);
    WithSuffixOfPair(g, f, Extensions[1], foldCase);
    WithSuffixOfPair(g, f, Extensions[2], foldCase);
    GlobbedOfPair(g, f, foldCase);
  }

  /** The labels written for a class directory holding `a.jpg` and `a.png`. */
  lemma SameStemRecords(name: string, f: ImageFile, g: ImageFile, foldCase: bool)
    requires ClassId(name).Some?
    requires f.suffix == ".jpg" && g.suffix == ".png"
    requires Outcome(ClassId(name).value, f).Some? && Outcome(ClassId(name).value, g).Some?
    ensures Records([Entry(name, true, [g, f])], 1, foldCase) ==
      [Outcome(ClassId(name).value, f).value, Outcome(ClassId(name).value, g).value]
  {
    var classId := ClassId(name).value;
    GlobJpgBeforePng(f, g, foldCase);
    assert Records([Entry(name, true, [g, f])], 1, foldCase) == [] + ClassRecords(classId, [f, g], 2);
    assert ClassRecords(classId, [f, g], 1) == [Outcome(classId, f).value];
  }

  /** Two images of one class with the same stem, `a.jpg` and `a.png`, both
      count towards `ok`, yet they share one label file, which holds the
      label of the image visited last. */
  lemma SameStemOverwrites(name: string, f: ImageFile, g: ImageFile, foldCase: bool, initial: map<string, string>)
    requires ClassId(name).Some?
    requires f.stem == g.stem && f.suffix == ".jpg" && g.suffix == ".png"
    requires Outcome(ClassId(name).value, f).Some? && Outcome(ClassId(name).value, g).Some?
    ensures var recs := Records([Entry(name, true, [g, f])], 1, foldCase);
      |recs| == 2 && recs[0].labelName == recs[1].labelName &&
      LabelFiles(initial, recs).Keys == initial.Keys + {recs[0].labelName} &&
      LabelFiles(initial, recs)[recs[0].labelName] == Written(recs[1])
  {
    SameStemRecords(name, f, g, foldCase);
    var recs := Records([Entry(name, true, [g, f])], 1, foldCase);
    LabelFilesOfPair(initial, recs[0], recs[1]);
  }

  /** The label directory after two writes. */
  lemma LabelFilesOfPair(initial: map<string, string>, r0: LabelRecord, r1: LabelRecord)
    ensures LabelFiles(initial, [r0, r1]).Keys == initial.Keys + {r0.labelName, r1.labelName}
    ensures LabelFiles(initial, [r0, r1])[r1.labelName] == Written(r1)
  {
    var before := LabelFiles(initial, []);
    assert before.Keys == initial.Keys;
    assert [r0, r1][..1] == [r0] && [r0][..0] == [];
    assert LabelFiles(initial, [r0]) == before[r0.labelName := Written(r0)];
  }
}
