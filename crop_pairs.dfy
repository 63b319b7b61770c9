/** The square crops of crop_and_resize_images.py: every image of the "images"
    and "masks" input directories yields a left and a right square crop, and a
    mask crop that is all black is not saved; instead the image crop it pairs
    with is deleted from the output. */
module CropPairs {
  import opened Text

  /** Every crop is resized to this size; the resampling is PIL's and is not
      modelled. */
  const ResizeTo: (nat, nat) := (512, 512)

  datatype Side = Left | Right

  /** A PIL crop box: (left, upper, right, lower). */
  datatype Box = Box(left: int, upper: int, right: int, lower: int)

  function BoxWidth(b: Box): int { b.right - b.left }
  function BoxHeight(b: Box): int { b.lower - b.upper }

  predicate InsideImage(b: Box, w: nat, h: nat) {
    0 <= b.left <= b.right <= w && 0 <= b.upper <= b.lower <= h
  }

  /** The square box for each side of a w x h image: the left one at the left
      edge, the right one at the right edge, both of full height. */
  function CropBox(side: Side, w: nat, h: nat): (b: Box)
    ensures BoxWidth(b) == h && BoxHeight(b) == h
    ensures b.upper == 0 && b.lower == h
    ensures side == Left ==> b.left == 0
    ensures side == Right ==> b.right == w
    ensures InsideImage(b, w, h) <==> h <= w
  {
    match side
    case Left => Box(0, 0, h, h)
    case Right => Box(w - h, 0, w, h)
  }

  /** The two crops are the same square exactly when the image is square. */
  lemma CropBoxesCoincide(w: nat, h: nat)
    ensures CropBox(Left, w, h) == CropBox(Right, w, h) <==> w == h
  {
  }

  /** When the image is at most twice as wide as high, the two squares cover
      every column; when it is wider, the columns between them are dropped. */
  lemma CropBoxesCover(w: nat, h: nat, x: nat)
    requires h <= w && x < w
    ensures (x < CropBox(Left, w, h).right || CropBox(Right, w, h).left <= x) <==>
              (w <= 2 * h || x < h || w - h <= x)
  {
  }

  // ---------------------------------------------------------------------------
  // Names of the crops

  function Tag(side: Side): string {
    match side
    case Left => "_1"
    case Right => "_2"
  }

  /** `filename[:-4] + tag + filename[-4:]`: the tag goes before the last four
      characters (for names shorter than that, in front of the whole name). */
  function ImageCropName(name: string, side: Side): (r: string)
    ensures |r| == |name| + 2
    ensures EndsWith(r, TakeLast(name, 4))
    ensures StartsWith(r, DropLast(name, 4) + Tag(side))
  {
    DropLast(name, 4) + Tag(side) + TakeLast(name, 4)
  }

  /** Different images, or different sides, never share a crop name: each image
      yields exactly two crops of its own. */
  lemma {:induction false} ImageCropNameInjective(a: string, b: string, s: Side, t: Side)
    ensures ImageCropName(a, s) == ImageCropName(b, t) <==> a == b && s == t
  {
    if ImageCropName(a, s) == ImageCropName(b, t) {
      var x, y := ImageCropName(a, s), ImageCropName(b, t);
      assert |a| == |b|;
      var n := |DropLast(a, 4)|;
      assert x[..n] == DropLast(a, 4) && y[..n] == DropLast(b, 4);
      assert x[n..n + 2] == Tag(s) && y[n..n + 2] == Tag(t);
      assert x[n + 2..] == TakeLast(a, 4) && y[n + 2..] == TakeLast(b, 4);
      DropTakeSplit(a, 4);
      DropTakeSplit(b, 4);
    }
  }

  /** For a ".jpg" image the tag lands between the stem and the extension. */
  lemma ImageCropNameOfJpg(name: string, side: Side)
    requires EndsWith(name, ".jpg")
    ensures ImageCropName(name, side) == name[..|name| - 4] + Tag(side) + ".jpg"
  {
  }

  /** `filename.replace('.jpg_mask.png', tag + '.jpg_mask.png')` */
  function MaskCropName(name: string, side: Side): string {
    ReplaceAll(name, ".jpg_mask.png", Tag(side) + ".jpg_mask.png")
  }

  /** The mask of image `name` is `name + "_mask.png"`. */
  function MaskOf(name: string): string { name + "_mask.png" }

  /** The image a mask name belongs to: the name without "_mask.png". */
  function ImageOfMask(name: string): string { DropLast(name, 9) }

  /** A mask name that pairs with a ".jpg" image whose name contains neither
      "_mask.png" nor "masks". */
  predicate MaskWellNamed(name: string) {
    EndsWith(name, ".jpg_mask.png") &&
    Free(ImageOfMask(name), "_mask.png") && Free(ImageOfMask(name), "masks")
  }

  lemma MaskOfImageOfMask(name: string)
    requires MaskWellNamed(name)
    ensures MaskOf(ImageOfMask(name)) == name && EndsWith(ImageOfMask(name), ".jpg")
  {
    assert name[|name| - 13..][4..] == name[|name| - 9..];
  }

  /** "_mask.png" in a + "_mask.png" occurs at the end and nowhere else when a
      is free of it, because its '_' does not recur in it. */
  lemma MaskSuffixOnlyAtEnd(a: string)
    requires Free(a, "_mask.png")
    ensures OnlyAt(a + "_mask.png", "_mask.png", |a|)
  {
    var s := a + "_mask.png";
    assert s[|a|..] == "_mask.png";
    FreeBeforeHead(a, "_mask.png", "_mask.png");
  }

  /** The crop name of the mask of a ".jpg" image is the crop name of the image
      followed by "_mask.png": cropping keeps the pairing of the names. */
  lemma {:induction false} MaskCropNameOfPair(name: string, side: Side)
    requires EndsWith(name, ".jpg") && Free(name, "_mask.png")
    ensures MaskCropName(MaskOf(name), side) == MaskOf(ImageCropName(name, side))
  {
    var s := MaskOf(name);
    var k := |name| - 4;
    var pat := ".jpg_mask.png";
    JpgMaskOnlyAtEnd(name);
    ReplaceOnly(s, pat, Tag(side) + pat, k);
    var stem := s[..k];
    assert stem == name[..k] && s[k + |pat|..] == [];
    ImageCropNameOfJpg(name, side);
    TagBeforeMaskSuffix(stem, Tag(side));
  }

  lemma TagBeforeMaskSuffix(stem: string, tag: string)
    ensures stem + (tag + ".jpg_mask.png") + [] == stem + tag + ".jpg" + "_mask.png"
  {
    assert ".jpg_mask.png" == ".jpg" + "_mask.png";
  }

  /** In the mask name of a ".jpg" image, ".jpg_mask.png" occurs only at the end. */
  lemma JpgMaskOnlyAtEnd(name: string)
    requires EndsWith(name, ".jpg") && Free(name, "_mask.png")
    ensures OnlyAt(MaskOf(name), ".jpg_mask.png", |name| - 4)
  {
    var s := MaskOf(name);
    var k := |name| - 4;
    var pat := ".jpg_mask.png";
    assert s[k..k + 13] == pat;
    MaskSuffixOnlyAtEnd(name);
    forall i | 0 <= i <= |s| && i != k ensures !OccursAt(s, pat, i) {
      if i < k && OccursAt(s, pat, i) {
        assert OccursAt(pat, "_mask.png", 4);
        OccursWithin(s, pat, "_mask.png", i, 4);
      }
    }
  }


  // ---------------------------------------------------------------------------
  // Paths in the output directory

  /** `os.path.join(root, dir, name)` for a root without a trailing '/' and a
      name without a leading one. */
  function Join(root: string, dir: string, name: string): string {
    root + "/" + dir + "/" + name
  }

  function ImageCropPath(out: string, name: string, side: Side): string {
    Join(out, "images", ImageCropName(name, side))
  }

  function MaskCropPath(out: string, name: string, side: Side): string {
    Join(out, "masks", MaskCropName(name, side))
  }

  /** The image crop a mask crop path points at:
      `.replace('masks', 'images').replace('_mask.png', '')`. */
  function PairedImagePath(maskCropPath: string): string {
    ReplaceAll(ReplaceAll(maskCropPath, "masks", "images"), "_mask.png", "")
  }

  /** Paths under "images" and under "masks" of the same root differ. */
  lemma DirsDiffer(out: string, x: string, y: string)
    ensures Join(out, "images", x) != Join(out, "masks", y)
  {
    assert Join(out, "images", x)[|out| + 1] == 'i';
    assert Join(out, "masks", y)[|out| + 1] == 'm';
  }

  predicate RootFree(out: string) {
    Free(out, "masks") && Free(out, "_mask.png")
  }

  /** "masks" has no 'm' after its first character, and none of these short
      texts holds it. */
  lemma NoMasksInTails()
    ensures Free("mask.png", "masks") && Free("1.jpg", "masks") && Free("2.jpg", "masks")
  {
    forall i | 0 <= i <= 8 ensures !OccursAt("mask.png", "masks", i) {
      if i == 0 {
        Mismatch("mask.png", "masks", 0, 4);
      } else if i <= 3 {
        Mismatch("mask.png", "masks", i, 0);
      }
    }
    Mismatch("1.jpg", "masks", 0, 0);
    Mismatch("2.jpg", "masks", 0, 0);
  }

  /** A prefix of a pattern-free string is pattern-free. */
  lemma FreePrefix(s: string, n: nat, pat: string)
    requires n <= |s| && Free(s, pat)
    ensures Free(s[..n], pat)
  {
    forall i | 0 <= i <= n && OccursAt(s[..n], pat, i) ensures OccursAt(s, pat, i) {
      assert s[..n][i..i + |pat|] == s[i..i + |pat|];
    }
  }

  /** The crop name of an image free of both patterns is free of both too. */
  lemma CropNameFree(name: string, side: Side)
    requires EndsWith(name, ".jpg") && Free(name, "_mask.png") && Free(name, "masks")
    ensures Free(ImageCropName(name, side), "_mask.png") && Free(ImageCropName(name, side), "masks")
  {
    var stem := name[..|name| - 4];
    ImageCropNameOfJpg(name, side);
    FreePrefix(name, |name| - 4, "_mask.png");
    FreePrefix(name, |name| - 4, "masks");
    var rest := if side == Left then "1.jpg" else "2.jpg";
    TagThenJpg(side);
    Regroup(stem, Tag(side), ".jpg", ['_'], rest);
    CropNameFreeOfSuffix(stem, rest);
    CropNameFreeOfDir(stem, rest);
  }

  lemma Regroup<T>(a: seq<T>, b: seq<T>, c: seq<T>, d: seq<T>, e: seq<T>)
    requires b + c == d + e
    ensures a + b + c == a + d + e
  {
    assert a + b + c == a + (b + c);
  }

  lemma TagThenJpg(side: Side)
    ensures Tag(side) + ".jpg" == ['_'] + (if side == Left then "1.jpg" else "2.jpg")
  {
  }

  /** No "_mask.png" appears in stem + "_" + rest when the stem has none and
      the tail is short. */
  lemma CropNameFreeOfSuffix(stem: string, rest: string)
    requires |rest| < 8 && Free(stem, "_mask.png")
    ensures Free(stem + ['_'] + rest, "_mask.png")
  {
    assert stem + ['_'] + rest == stem + (['_'] + rest);
    FreeBeforeHead(stem, ['_'] + rest, "_mask.png");
  }

  /** No "masks" appears in stem + "_" + rest when the stem has none and the
      tail is a side's tag end and ".jpg". */
  lemma CropNameFreeOfDir(stem: string, rest: string)
    requires rest == "1.jpg" || rest == "2.jpg"
    requires Free(stem, "masks")
    ensures Free(stem + ['_'] + rest, "masks")
  {
    NoMasksInTails();
    FreeAroundSeparator(stem, '_', rest, "masks");
  }

  /** The first replacement renames the directory and nothing else. */
  lemma {:induction false} RenameMasksDir(out: string, tail: string)
    requires Free(out, "masks") && Free(tail, "masks")
    ensures ReplaceAll(Join(out, "masks", tail), "masks", "images") == Join(out, "images", tail)
  {
    assert OnlyAt("masks", "masks", 0);
    OnlyAtBeforeSeparator("masks", '/', tail, "masks", 0);
    OnlyAtAroundSeparator(out, '/', "masks" + ['/'] + tail, "masks", 0);
    var p := out + ['/'] + ("masks" + ['/'] + tail);
    assert p == Join(out, "masks", tail);
    ReplaceOnly(p, "masks", "images", |out| + 1);
    assert p[..|out| + 1] + "images" + p[|out| + 6..] == Join(out, "images", tail);
  }

  /** The second replacement drops the final "_mask.png" and nothing else. */
  lemma {:induction false} DropMaskSuffix(out: string, c: string)
    requires Free(out, "_mask.png") && Free(c, "_mask.png")
    ensures ReplaceAll(Join(out, "images", MaskOf(c)), "_mask.png", "") == Join(out, "images", c)
  {
    var tail := MaskOf(c);
    MaskSuffixOnlyAtEnd(c);
    OnlyAtAroundSeparator("images", '/', tail, "_mask.png", |c|);
    OnlyAtAroundSeparator(out, '/', "images" + ['/'] + tail, "_mask.png", 7 + |c|);
    var q := out + ['/'] + ("images" + ['/'] + tail);
    assert q == Join(out, "images", tail);
    ReplaceOnly(q, "_mask.png", "", |out| + 8 + |c|);
    assert q[..|out| + 8 + |c|] == Join(out, "images", c);
    assert q[|out| + 8 + |c| + 9..] == [];
  }

  /** Round trip: from the path of a mask crop, the derivation of the path to
      delete gives exactly the path of the paired image crop, as long as
      neither "masks" nor "_mask.png" occurs in the root or the image name. */
  lemma PairedPathRoundTrip(out: string, name: string, side: Side)
    requires RootFree(out)
    requires EndsWith(name, ".jpg") && Free(name, "_mask.png") && Free(name, "masks")
    ensures PairedImagePath(MaskCropPath(out, MaskOf(name), side)) == ImageCropPath(out, name, side)
  {
    MaskCropNameOfPair(name, side);
    var c := ImageCropName(name, side);
    CropNameFree(name, side);
    MaskOfKeepsFree(c);
    RenameMasksDir(out, MaskOf(c));
    DropMaskSuffix(out, c);
  }

  /** Appending "_mask.png" to a name without "masks" adds no "masks". */
  lemma MaskOfKeepsFree(c: string)
    requires Free(c, "masks")
    ensures Free(MaskOf(c), "masks")
  {
    NoMasksInTails();
    assert MaskOf(c) == c + ['_'] + "mask.png";
    FreeAroundSeparator(c, '_', "mask.png", "masks");
  }

  lemma JoinInjective(out: string, dir: string, x: string, y: string)
    ensures Join(out, dir, x) == Join(out, dir, y) <==> x == y
  {
    var n := |out| + |dir| + 2;
    assert Join(out, dir, x)[n..] == x && Join(out, dir, y)[n..] == y;
  }

  lemma MaskOfInjective(x: string, y: string)
    ensures MaskOf(x) == MaskOf(y) <==> x == y
  {
    assert MaskOf(x)[..|x|] == x && MaskOf(y)[..|y|] == y;
  }

  // ---------------------------------------------------------------------------
  // Which paths `Image.save` accepts

  /** The extensions for which Pillow 10's built-in plugins register a writer.
      `Image.save` without a format looks the lower-cased extension of the path
      up among them and raises `ValueError` before opening any file when it is
      not found. */
  const SaveExtensions: set<string> := {
    ".apng", ".blp", ".bmp", ".bw", ".dds", ".dib", ".eps", ".gif", ".icb",
    ".icns", ".ico", ".im", ".j2c", ".j2k", ".jfif", ".jp2", ".jpc", ".jpe",
    ".jpeg", ".jpf", ".jpg", ".jpx", ".mpo", ".msp", ".palm", ".pbm", ".pcx",
    ".pdf", ".pgm", ".png", ".pnm", ".ppm", ".ps", ".rgb", ".rgba", ".sgi",
    ".tga", ".tif", ".tiff", ".vda", ".vst", ".webp", ".xbm"}

  predicate Savable(path: string) {
    Lower(Extension(path)) in SaveExtensions
  }

  lemma LowerKnown()
    ensures Lower(".jpg") == ".jpg" && Lower(".png") == ".png"
  {
    LowerKeeps(".jpg");
    LowerKeeps(".png");
  }

  lemma KnownSavable(path: string)
    requires Extension(path) == ".jpg" || Extension(path) == ".png"
    ensures Savable(path)
  {
    LowerKnown();
  }

  /** A path ending in a ".jpg" or ".png" extension after a character that
      is not a dot is savable. */
  lemma TailSavable(path: string, c: char, e: string)
    requires e == ".jpg" || e == ".png"
    requires EndsWith(path, [c] + e) && c != '.' && c != '/'
    ensures Extension(path) == e && Savable(path)
  {
    var a := path[..|path| - |e| - 1];
    assert path == a + [c] + e;
    ExtensionOfTail(a, c, e);
    KnownSavable(path);
  }

  /** The crops of a ".jpg" image are saved as JPEG files. */
  lemma JpgCropSavable(out: string, name: string, side: Side)
    requires EndsWith(name, ".jpg")
    ensures Extension(ImageCropPath(out, name, side)) == ".jpg"
    ensures Savable(ImageCropPath(out, name, side))
  {
    var c := if side == Left then '1' else '2';
    JpgCropTail(out, name, side, c);
    TailSavable(ImageCropPath(out, name, side), c, ".jpg");
  }

  lemma JpgCropTail(out: string, name: string, side: Side, c: char)
    requires EndsWith(name, ".jpg") && c == if side == Left then '1' else '2'
    ensures EndsWith(ImageCropPath(out, name, side), [c] + ".jpg")
  {
    ImageCropNameOfJpg(name, side);
  }

  /** The crops of a well-named mask are saved as PNG files. */
  lemma MaskCropSavable(out: string, name: string, side: Side)
    requires MaskWellNamed(name)
    ensures Extension(MaskCropPath(out, name, side)) == ".png"
    ensures Savable(MaskCropPath(out, name, side))
  {
    MaskCropTail(out, name, side);
    TailSavable(MaskCropPath(out, name, side), 'k', ".png");
  }

  lemma MaskCropTail(out: string, name: string, side: Side)
    requires MaskWellNamed(name)
    ensures EndsWith(MaskCropPath(out, name, side), "k.png")
  {
    var c := ImageCropName(ImageOfMask(name), side);
    MaskOfImageOfMask(name);
    MaskCropNameOfPair(ImageOfMask(name), side);
    assert MaskCropName(name, side) == c + "_mask.png";
    EndsWithMaskSuffix(out + "/" + "masks" + "/", c);
  }

  lemma EndsWithMaskSuffix(a: string, c: string)
    ensures EndsWith(a + (c + "_mask.png"), "k.png")
  {
    var p := a + (c + "_mask.png");
    assert p[|p| - 5..] == "_mask.png"[4..];
  }

  /** A name without a dot, such as "abc", gives crops without an extension,
      which `Image.save` refuses. */
  lemma UndottedCropNotSavable(out: string, name: string, side: Side)
    requires '.' !in name && '/' !in name
    ensures !Savable(ImageCropPath(out, name, side))
  {
    UndottedCropName(name, side);
    CropExtension(out, ImageCropName(name, side));
    NoExtensionNotSavable(ImageCropPath(out, name, side));
  }

  lemma NoExtensionNotSavable(path: string)
    requires Extension(path) == []
    ensures !Savable(path)
  {
    NoExtensionListed();
  }

  lemma NoExtensionListed()
    ensures Lower([]) !in SaveExtensions
  {
    assert Lower([]) == [];
  }

  lemma UndottedCropName(name: string, side: Side)
    requires '.' !in name && '/' !in name
    ensures '.' !in ImageCropName(name, side) && '/' !in ImageCropName(name, side)
  {
    var a, b := DropLast(name, 4), TakeLast(name, 4);
    assert '.' !in a && '/' !in a && '.' !in b && '/' !in b;
    assert ImageCropName(name, side) == a + Tag(side) + b;
  }

  /** A crop name with no dot gives a crop path with no extension. */
  lemma CropExtension(out: string, crop: string)
    requires '.' !in crop && '/' !in crop
    ensures Extension(Join(out, "images", crop)) == []
  {
    NoExtensionAfterSlash(out + "/" + "images", crop);
  }

  // ---------------------------------------------------------------------------
  // The output tree, step by step

  /** An input file: its name and size and, for a mask, the largest pixel value
      of each resized crop (`getextrema()[1]` of a one-band image). Those two
      values come from PIL's crop and resize and are given, not computed. */
  datatype Picture = Picture(name: string, width: nat, height: nat, maxLeft: nat, maxRight: nat)

  function Max(p: Picture, side: Side): nat {
    match side
    case Left => p.maxLeft
    case Right => p.maxRight
  }

  /** What an output file holds: the crop of which input file, with which box,
      resized to ResizeTo. */
  datatype Crop = Crop(dir: string, name: string, box: Box)

  datatype Op = Save(path: string, crop: Crop) | Remove(path: string)

  /** The output tree, from path to content, and whether the script has
      stopped on an exception: `os.remove` of a missing path, or `Image.save`
      to a path with an extension no writer claims. */
  datatype Run = Run(files: map<string, Crop>, crashed: bool)

  function ApplyOp(r: Run, op: Op): Run {
    if r.crashed then r
    else match op
      case Save(path, crop) => if Savable(path) then Run(r.files[path := crop], false) else Run(r.files, true)
      case Remove(path) => if path in r.files then Run(r.files - {path}, false) else Run(r.files, true)
  }

  /** What the body of the file loop does for one side of one file. */
  function CropOp(out: string, dir: string, p: Picture, side: Side): Op {
    var crop := Crop(dir, p.name, CropBox(side, p.width, p.height));
    if dir == "masks" then
      var path := MaskCropPath(out, p.name, side);
      if Max(p, side) == 0 then Remove(PairedImagePath(path)) else Save(path, crop)
    else
      Save(Join(out, dir, ImageCropName(p.name, side)), crop)
  }

  function FileRun(r: Run, out: string, dir: string, p: Picture): Run {
    ApplyOp(ApplyOp(r, CropOp(out, dir, p, Left)), CropOp(out, dir, p, Right))
  }

  /** The file loop over one input directory's listing. */
  function DirRun(r: Run, out: string, dir: string, listing: seq<Picture>): Run
    decreases |listing|
  {
    if listing == [] then r
    else FileRun(DirRun(r, out, dir, listing[..|listing| - 1]), out, dir, listing[|listing| - 1])
  }

  /** The whole script: a fresh output tree, then "images", then "masks". */
  function Script(out: string, images: seq<Picture>, masks: seq<Picture>): Run {
    DirRun(DirRun(Run(map[], false), out, "images", images), out, "masks", masks)
  }

  /** Once `os.remove` has raised, nothing further happens. */
  lemma {:induction false} CrashedStays(r: Run, out: string, dir: string, listing: seq<Picture>, j: nat)
    requires j <= |listing| && DirRun(r, out, dir, listing[..j]).crashed
    ensures DirRun(r, out, dir, listing) == DirRun(r, out, dir, listing[..j])
    decreases |listing|
  {
    if j < |listing| {
      var init := listing[..|listing| - 1];
      assert init[..j] == listing[..j];
      CrashedStays(r, out, dir, init, j);
    } else {
      assert listing[..j] == listing;
    }
  }

  /** One side of a mask: save the crop, or remove the paired image crop when
      the crop is all black. */
  method SaveOrPrune(files: map<string, Crop>, path: string, crop: Crop, max: nat)
    returns (files': map<string, Crop>, crashed: bool)
    ensures max != 0 ==> (crashed <==> !Savable(path))
    ensures max != 0 ==> files' == if crashed then files else files[path := crop]
    ensures max == 0 ==> (crashed <==> PairedImagePath(path) !in files)
    ensures max == 0 ==> files' == files - {PairedImagePath(path)}
  {
    if max == 0 {
      var target := PairedImagePath(path);
      if target !in files {
        return files, true;
      }
      files', crashed := files - {target}, false;
    } else {
      files', crashed := SaveCrop(files, path, crop);
    }
  }

  /** `crop.save(path)`: the extension of the path picks the writer. */
  method SaveCrop(files: map<string, Crop>, path: string, crop: Crop)
    returns (files': map<string, Crop>, crashed: bool)
    ensures crashed <==> !Savable(path)
    ensures files' == if crashed then files else files[path := crop]
  {
    if Lower(Extension(path)) in SaveExtensions {
      files', crashed := files[path := crop], false;
    } else {
      files', crashed := files, true;
    }
  }

  /** The body of the file loop: crop both sides, then save them, or for a
      mask save or prune each side in turn. */
  method ProcessFile(out: string, dir: string, p: Picture, files: map<string, Crop>)
    returns (files': map<string, Crop>, crashed: bool)
    ensures Run(files', crashed) == FileRun(Run(files, false), out, dir, p)
  {
    var leftCrop := Crop(dir, p.name, CropBox(Left, p.width, p.height));
    var rightCrop := Crop(dir, p.name, CropBox(Right, p.width, p.height));
    if dir == "masks" {
      files', crashed := SaveOrPrune(files, MaskCropPath(out, p.name, Left), leftCrop, p.maxLeft);
      if !crashed {
        files', crashed := SaveOrPrune(files', MaskCropPath(out, p.name, Right), rightCrop, p.maxRight);
      }
    } else {
      files', crashed := SaveCrop(files, Join(out, dir, ImageCropName(p.name, Left)), leftCrop);
      if !crashed {
        files', crashed := SaveCrop(files', Join(out, dir, ImageCropName(p.name, Right)), rightCrop);
      }
    }
  }

  /** The file loop over one input directory, stopping when `os.remove` raises. */
  method ProcessDir(out: string, dir: string, listing: seq<Picture>, files0: map<string, Crop>)
    returns (files: map<string, Crop>, crashed: bool)
    ensures Run(files, crashed) == DirRun(Run(files0, false), out, dir, listing)
  {
    files, crashed := files0, false;
    var j := 0;
    while j < |listing| && !crashed
      invariant 0 <= j <= |listing|
      invariant Run(files, crashed) == DirRun(Run(files0, false), out, dir, listing[..j])
    {
      files, crashed := ProcessFile(out, dir, listing[j], files);
      assert listing[..j + 1][..j] == listing[..j];
      j := j + 1;
    }
    if j < |listing| {
      CrashedStays(Run(files0, false), out, dir, listing, j);
    } else {
      assert listing[..j] == listing;
    }
  }

  /** The script: both directories in turn, into a freshly emptied output tree. */
  method CropAndResizeImages(out: string, images: seq<Picture>, masks: seq<Picture>)
    returns (files: map<string, Crop>, crashed: bool)
    ensures Run(files, crashed) == Script(out, images, masks)
  {
    var dirs := ["images", "masks"];
    var listings := [images, masks];
    files, crashed := map[], false;
    for d := 0 to 2
      invariant d == 0 ==> Run(files, crashed) == Run(map[], false)
      invariant d == 1 ==> Run(files, crashed) == DirRun(Run(map[], false), out, "images", images)
      invariant d == 2 ==> Run(files, crashed) == Script(out, images, masks)
    {
      if crashed {
        CrashedStays(Run(files, crashed), out, dirs[d], listings[d], 0);
        break;
      }
      files, crashed := ProcessDir(out, dirs[d], listings[d], files);
    }
  }

  // ---------------------------------------------------------------------------
  // What the output tree holds

  /** The paths of both crops of every image. */
  function ImageKeys(out: string, images: seq<Picture>): set<string>
    decreases |images|
  {
    if images == [] then {}
    else
      var p := images[|images| - 1];
      ImageKeys(out, images[..|images| - 1]) + {ImageCropPath(out, p.name, Left), ImageCropPath(out, p.name, Right)}
  }

  /** The image crops a mask's all-black crops point at. */
  function BlackTargets(out: string, m: Picture): set<string> {
    (if m.maxLeft == 0 then {ImageCropPath(out, ImageOfMask(m.name), Left)} else {}) +
    (if m.maxRight == 0 then {ImageCropPath(out, ImageOfMask(m.name), Right)} else {})
  }

  function Pruned(out: string, masks: seq<Picture>): set<string>
    decreases |masks|
  {
    if masks == [] then {}
    else Pruned(out, masks[..|masks| - 1]) + BlackTargets(out, masks[|masks| - 1])
  }

  /** The mask crops that are not all black. */
  function LitCrops(out: string, m: Picture): set<string> {
    (if m.maxLeft > 0 then {MaskCropPath(out, m.name, Left)} else {}) +
    (if m.maxRight > 0 then {MaskCropPath(out, m.name, Right)} else {})
  }

  function MaskKeys(out: string, masks: seq<Picture>): set<string>
    decreases |masks|
  {
    if masks == [] then {}
    else MaskKeys(out, masks[..|masks| - 1]) + LitCrops(out, masks[|masks| - 1])
  }

  /** Both crops of an image go to paths whose extension `Image.save` knows. */
  predicate CropsSavable(out: string, p: Picture) {
    Savable(ImageCropPath(out, p.name, Left)) && Savable(ImageCropPath(out, p.name, Right))
  }

  predicate AllCropsSavable(out: string, images: seq<Picture>)
    decreases |images|
  {
    images == [] ||
    (AllCropsSavable(out, images[..|images| - 1]) && CropsSavable(out, images[|images| - 1]))
  }

  /** The "images" pass stops exactly when some image crop has an extension
      `Image.save` refuses; otherwise it saves both crops of every image. */
  lemma {:induction false} ImagePass(out: string, r: Run, images: seq<Picture>)
    requires !r.crashed
    ensures DirRun(r, out, "images", images).crashed <==> !AllCropsSavable(out, images)
    ensures AllCropsSavable(out, images) ==>
              DirRun(r, out, "images", images).files.Keys == r.files.Keys + ImageKeys(out, images)
    decreases |images|
  {
    if images != [] {
      var init, p := images[..|images| - 1], images[|images| - 1];
      ImagePass(out, r, init);
      var r1 := DirRun(r, out, "images", init);
      if r1.crashed {
        CrashedFileRun(r1, out, "images", p);
      } else {
        ImageFileStep(out, r1, p);
      }
    }
  }

  /** A stopped script does nothing more. */
  lemma CrashedFileRun(r: Run, out: string, dir: string, p: Picture)
    requires r.crashed
    ensures FileRun(r, out, dir, p) == r
  {
  }

  /** One image of the "images" pass: both crops are saved under their own
      names, or the pass stops at the first crop `Image.save` refuses. */
  lemma ImageFileStep(out: string, r: Run, p: Picture)
    requires !r.crashed
    ensures FileRun(r, out, "images", p).crashed <==> !CropsSavable(out, p)
    ensures CropsSavable(out, p) ==>
              FileRun(r, out, "images", p).files ==
                r.files[ImageCropPath(out, p.name, Left) := CropOf(p, Left)][ImageCropPath(out, p.name, Right) := CropOf(p, Right)]
  {
    var r1 := ApplyOp(r, CropOp(out, "images", p, Left));
    ImageSideStep(out, r, p, Left);
    if !r1.crashed {
      ImageSideStep(out, r1, p, Right);
    }
  }

  /** One crop of an image: saved under its own path, or refused. */
  lemma ImageSideStep(out: string, r: Run, p: Picture, side: Side)
    requires !r.crashed
    ensures ApplyOp(r, CropOp(out, "images", p, side)) ==
              if Savable(ImageCropPath(out, p.name, side))
              then Run(r.files[ImageCropPath(out, p.name, side) := CropOf(p, side)], false)
              else Run(r.files, true)
  {
  }

  /** Images named "*.jpg" are never refused. */
  lemma {:induction false} JpgImagesSavable(out: string, images: seq<Picture>)
    requires forall i :: 0 <= i < |images| ==> EndsWith(images[i].name, ".jpg")
    ensures AllCropsSavable(out, images)
    decreases |images|
  {
    if images != [] {
      var init, p := images[..|images| - 1], images[|images| - 1];
      assert forall i :: 0 <= i < |init| ==> init[i] == images[i];
      JpgImagesSavable(out, init);
      JpgCropSavable(out, p.name, Left);
      JpgCropSavable(out, p.name, Right);
    }
  }

  /** An image crop `Image.save` refuses stops the script in the "images" pass:
      the "masks" pass never runs. */
  lemma UnsavableImageStopsScript(out: string, images: seq<Picture>, masks: seq<Picture>)
    requires !AllCropsSavable(out, images)
    ensures Script(out, images, masks).crashed
    ensures Script(out, images, masks) == DirRun(Run(map[], false), out, "images", images)
  {
    var r1 := DirRun(Run(map[], false), out, "images", images);
    ImagePass(out, Run(map[], false), images);
    CrashedStays(r1, out, "masks", masks, 0);
    assert masks[..0] == [];
  }

  lemma {:induction false} ImageKeysHas(out: string, images: seq<Picture>, j: nat, side: Side)
    requires j < |images|
    ensures ImageCropPath(out, images[j].name, side) in ImageKeys(out, images)
    decreases |images|
  {
    if j < |images| - 1 {
      ImageKeysHas(out, images[..|images| - 1], j, side);
    }
  }

  lemma {:induction false} NoImagePathIsMaskKey(out: string, masks: seq<Picture>, x: string)
    ensures Join(out, "images", x) !in MaskKeys(out, masks)
    decreases |masks|
  {
    if masks != [] {
      var m := masks[|masks| - 1];
      DirsDiffer(out, x, MaskCropName(m.name, Left));
      DirsDiffer(out, x, MaskCropName(m.name, Right));
      NoImagePathIsMaskKey(out, masks[..|masks| - 1], x);
    }
  }

  lemma {:induction false} NoMaskPathIsImageKey(out: string, images: seq<Picture>, y: string)
    ensures Join(out, "masks", y) !in ImageKeys(out, images)
    decreases |images|
  {
    if images != [] {
      var p := images[|images| - 1];
      DirsDiffer(out, ImageCropName(p.name, Left), y);
      DirsDiffer(out, ImageCropName(p.name, Right), y);
      NoMaskPathIsImageKey(out, images[..|images| - 1], y);
    }
  }

  lemma ImageCropPathInjective(out: string, a: string, b: string, s: Side, t: Side)
    ensures ImageCropPath(out, a, s) == ImageCropPath(out, b, t) <==> a == b && s == t
  {
    ImageCropNameInjective(a, b, s, t);
    JoinInjective(out, "images", ImageCropName(a, s), ImageCropName(b, t));
  }

  lemma InBlackTargets(out: string, m: Picture, name: string, side: Side)
    ensures ImageCropPath(out, name, side) in BlackTargets(out, m) <==>
              ImageOfMask(m.name) == name && Max(m, side) == 0
  {
    var x, n := ImageCropPath(out, name, side), ImageOfMask(m.name);
    var l, r := ImageCropPath(out, n, Left), ImageCropPath(out, n, Right);
    ImageCropPathInjective(out, name, n, side, Left);
    ImageCropPathInjective(out, name, n, side, Right);
    assert x == l <==> name == n && side == Left;
    assert x == r <==> name == n && side == Right;
    InChoice(x, l, r, m.maxLeft == 0, m.maxRight == 0);
  }

  lemma InChoice<T>(x: T, l: T, r: T, useL: bool, useR: bool)
    ensures x in (if useL then {l} else {}) + (if useR then {r} else {}) <==> (useL && x == l) || (useR && x == r)
  {
  }

  /** An image crop path is pruned exactly when some mask of that image has an
      all-black crop on that side. */
  lemma {:induction false} InPruned(out: string, masks: seq<Picture>, name: string, side: Side)
    ensures ImageCropPath(out, name, side) in Pruned(out, masks) <==>
              exists k :: 0 <= k < |masks| && ImageOfMask(masks[k].name) == name && Max(masks[k], side) == 0
    decreases |masks|
  {
    if masks != [] {
      var init, m := masks[..|masks| - 1], masks[|masks| - 1];
      var x := ImageCropPath(out, name, side);
      InPruned(out, init, name, side);
      InBlackTargets(out, m, name, side);
      assert x in Pruned(out, masks) <==> x in Pruned(out, init) || x in BlackTargets(out, m);
      BlackSplit(masks, name, side);
    }
  }

  /** Some mask of an image is black on a side exactly when one before the last
      is, or the last one is. */
  lemma BlackSplit(masks: seq<Picture>, name: string, side: Side)
    requires masks != []
    ensures var init, m := masks[..|masks| - 1], masks[|masks| - 1];
            (exists k :: 0 <= k < |masks| && ImageOfMask(masks[k].name) == name && Max(masks[k], side) == 0) <==>
              (exists k :: 0 <= k < |init| && ImageOfMask(init[k].name) == name && Max(init[k], side) == 0) ||
              (ImageOfMask(m.name) == name && Max(m, side) == 0)
  {
    var init := masks[..|masks| - 1];
    assert forall k :: 0 <= k < |init| ==> init[k] == masks[k];
  }

  predicate AllWellNamed(masks: seq<Picture>) {
    forall i :: 0 <= i < |masks| ==> MaskWellNamed(masks[i].name)
  }

  /** `os.listdir` never lists a name twice. */
  predicate DistinctNames(listing: seq<Picture>) {
    forall i, j :: 0 <= i < j < |listing| ==> listing[i].name != listing[j].name
  }

  /** Well-named masks of different names point at different images. */
  lemma OtherMaskOtherImage(a: string, b: string)
    requires MaskWellNamed(a) && MaskWellNamed(b) && a != b
    ensures ImageOfMask(a) != ImageOfMask(b)
  {
    MaskOfImageOfMask(a);
    MaskOfImageOfMask(b);
  }

  /** One side of a mask turned into an operation on the output tree: with a
      well-named mask the path to remove is the paired image crop. */
  lemma MaskCropOp(out: string, m: Picture, side: Side)
    requires RootFree(out) && MaskWellNamed(m.name)
    ensures var op := CropOp(out, "masks", m, side);
      if Max(m, side) == 0 then op == Remove(ImageCropPath(out, ImageOfMask(m.name), side))
      else op.Save? && op.path == MaskCropPath(out, m.name, side) && Savable(op.path)
  {
    var n := ImageOfMask(m.name);
    MaskOfImageOfMask(m.name);
    PairedPathRoundTrip(out, n, side);
    MaskCropSavable(out, m.name, side);
  }

  /** The key set after one file of the "masks" pass. */
  lemma MaskFileKeys(out: string, r: Run, m: Picture)
    requires !r.crashed && RootFree(out) && MaskWellNamed(m.name)
    requires BlackTargets(out, m) <= r.files.Keys
    ensures !FileRun(r, out, "masks", m).crashed
    ensures FileRun(r, out, "masks", m).files.Keys == r.files.Keys - BlackTargets(out, m) + LitCrops(out, m)
  {
    MaskSidesApart(out, m);
    var r1 := ApplyOp(r, CropOp(out, "masks", m, Left));
    KeysTwoSides(r.files.Keys, SideTarget(out, m, Left), SideLit(out, m, Left), SideTarget(out, m, Right), SideLit(out, m, Right));
    MaskSideKeys(out, r, m, Left);
    MaskSideKeys(out, r1, m, Right);
  }

  /** The two sides of a mask: what it prunes and saves, spelled per side; the
      image crop of the right side is neither that of the left side nor the left
      mask crop. */
  lemma MaskSidesApart(out: string, m: Picture)
    requires RootFree(out) && MaskWellNamed(m.name)
    ensures BlackTargets(out, m) == SideTarget(out, m, Left) + SideTarget(out, m, Right)
    ensures LitCrops(out, m) == SideLit(out, m, Left) + SideLit(out, m, Right)
    ensures SideTarget(out, m, Right) !! SideTarget(out, m, Left) + SideLit(out, m, Left)
  {
    var n := ImageOfMask(m.name);
    ImageCropPathInjective(out, n, n, Left, Right);
    MaskOfImageOfMask(m.name);
    MaskCropNameOfPair(n, Left);
    DirsDiffer(out, ImageCropName(n, Right), MaskCropName(m.name, Left));
  }

  /** Key-set bookkeeping for the two sides of one mask. */
  lemma KeysTwoSides<T>(keys: set<T>, targetL: set<T>, litL: set<T>, targetR: set<T>, litR: set<T>)
    requires targetR !! targetL + litL
    ensures targetL + targetR <= keys ==> targetR <= keys - targetL + litL
    ensures keys - targetL + litL - targetR + litR == keys - (targetL + targetR) + (litL + litR)
  {
  }

  /** The image crop one side of a mask removes, if that side is all black. */
  function SideTarget(out: string, m: Picture, side: Side): set<string> {
    if Max(m, side) == 0 then {ImageCropPath(out, ImageOfMask(m.name), side)} else {}
  }

  /** The mask crop one side of a mask saves, if that side is not all black. */
  function SideLit(out: string, m: Picture, side: Side): set<string> {
    if Max(m, side) > 0 then {MaskCropPath(out, m.name, side)} else {}
  }

  /** The key set after one side of one file of the "masks" pass. */
  lemma MaskSideKeys(out: string, r: Run, m: Picture, side: Side)
    requires !r.crashed && RootFree(out) && MaskWellNamed(m.name)
    requires SideTarget(out, m, side) <= r.files.Keys
    ensures !ApplyOp(r, CropOp(out, "masks", m, side)).crashed
    ensures ApplyOp(r, CropOp(out, "masks", m, side)).files.Keys == r.files.Keys - SideTarget(out, m, side) + SideLit(out, m, side)
  {
    MaskCropOp(out, m, side);
  }

  /** The "masks" pass, when every image crop to prune is present at the start:
      it never raises, removes exactly the pruned image crops and adds exactly
      the mask crops that are not all black. */
  lemma {:induction false} MaskPass(out: string, r: Run, masks: seq<Picture>)
    requires !r.crashed && RootFree(out) && AllWellNamed(masks) && DistinctNames(masks)
    requires Pruned(out, masks) <= r.files.Keys
    ensures !DirRun(r, out, "masks", masks).crashed
    ensures DirRun(r, out, "masks", masks).files.Keys == (r.files.Keys - Pruned(out, masks)) + MaskKeys(out, masks)
    decreases |masks|
  {
    if masks != [] {
      var init, m := masks[..|masks| - 1], masks[|masks| - 1];
      LastMaskFresh(out, masks);
      MaskPass(out, r, init);
      var r1 := DirRun(r, out, "masks", init);
      KeysStep(r.files.Keys, Pruned(out, init), MaskKeys(out, init), BlackTargets(out, m), LitCrops(out, m));
      MaskFileKeys(out, r1, m);
    }
  }

  /** The image crops the last mask prunes are neither pruned by an earlier mask
      nor among the earlier mask crops. */
  lemma LastMaskFresh(out: string, masks: seq<Picture>)
    requires masks != [] && AllWellNamed(masks) && DistinctNames(masks)
    ensures var init, m := masks[..|masks| - 1], masks[|masks| - 1];
            AllWellNamed(init) && DistinctNames(init) && MaskWellNamed(m.name) &&
            BlackTargets(out, m) !! Pruned(out, init) && BlackTargets(out, m) !! MaskKeys(out, init)
  {
    var init, m := masks[..|masks| - 1], masks[|masks| - 1];
    assert forall k :: 0 <= k < |init| ==> init[k] == masks[k];
    var n := ImageOfMask(m.name);
    forall k | 0 <= k < |init| ensures ImageOfMask(init[k].name) != n {
      OtherMaskOtherImage(init[k].name, m.name);
    }
    InPruned(out, init, n, Left);
    InPruned(out, init, n, Right);
    NoImagePathIsMaskKey(out, init, ImageCropName(n, Left));
    NoImagePathIsMaskKey(out, init, ImageCropName(n, Right));
  }

  /** Key-set bookkeeping for one more mask: removing fresh targets B and adding L. */
  lemma KeysStep<T>(keys: set<T>, pruned: set<T>, saved: set<T>, targets: set<T>, lit: set<T>)
    requires targets !! pruned && targets !! saved && pruned + targets <= keys
    ensures targets <= (keys - pruned) + saved
    ensures (keys - pruned) + saved - targets + lit == (keys - (pruned + targets)) + (saved + lit)
  {
  }

  /** Every mask with an all-black crop has its image among the images. */
  predicate Paired(images: seq<Picture>, masks: seq<Picture>) {
    forall i :: 0 <= i < |masks| && (masks[i].maxLeft == 0 || masks[i].maxRight == 0) ==>
      exists j :: 0 <= j < |images| && images[j].name == ImageOfMask(masks[i].name)
  }

  lemma {:induction false} PrunedAreImageCrops(out: string, images: seq<Picture>, masks: seq<Picture>)
    requires Paired(images, masks)
    ensures Pruned(out, masks) <= ImageKeys(out, images)
    decreases |masks|
  {
    if masks != [] {
      PairedPrefix(images, masks);
      PrunedAreImageCrops(out, images, masks[..|masks| - 1]);
      LastTargetsAreImageCrops(out, images, masks);
    }
  }

  lemma PairedPrefix(images: seq<Picture>, masks: seq<Picture>)
    requires masks != [] && Paired(images, masks)
    ensures Paired(images, masks[..|masks| - 1])
  {
    var init := masks[..|masks| - 1];
    forall i | 0 <= i < |init| ensures init[i] == masks[i] { }
  }

  /** The image crops the last mask prunes are crops of some image. */
  lemma LastTargetsAreImageCrops(out: string, images: seq<Picture>, masks: seq<Picture>)
    requires masks != [] && Paired(images, masks)
    ensures BlackTargets(out, masks[|masks| - 1]) <= ImageKeys(out, images)
  {
    var m := masks[|masks| - 1];
    if m.maxLeft == 0 || m.maxRight == 0 {
      var j :| 0 <= j < |images| && images[j].name == ImageOfMask(m.name);
      ImageKeysHas(out, images, j, Left);
      ImageKeysHas(out, images, j, Right);
    }
  }

  /** On a dataset whose masks pair with its images, the script never raises,
      and the output tree holds both crops of every image except the pruned
      ones, and every mask crop that is not all black. */
  lemma PairedDatasetIsPruned(out: string, images: seq<Picture>, masks: seq<Picture>)
    requires RootFree(out) && AllWellNamed(masks) && DistinctNames(masks) && Paired(images, masks)
    requires AllCropsSavable(out, images)
    ensures !Script(out, images, masks).crashed
    ensures Script(out, images, masks).files.Keys ==
              (ImageKeys(out, images) - Pruned(out, masks)) + MaskKeys(out, masks)
  {
    var r0 := Run(map[], false);
    ImagePass(out, r0, images);
    PrunedAreImageCrops(out, images, masks);
    MaskPass(out, DirRun(r0, out, "images", images), masks);
  }

  /** Mask crop paths of well-named masks identify the mask and the side. */
  lemma MaskCropPathInjective(out: string, a: string, b: string, s: Side, t: Side)
    requires MaskWellNamed(a) && MaskWellNamed(b)
    ensures MaskCropPath(out, a, s) == MaskCropPath(out, b, t) <==> a == b && s == t
  {
    MaskOfImageOfMask(a);
    MaskOfImageOfMask(b);
    MaskCropNameOfPair(ImageOfMask(a), s);
    MaskCropNameOfPair(ImageOfMask(b), t);
    JoinInjective(out, "masks", MaskCropName(a, s), MaskCropName(b, t));
    MaskOfInjective(ImageCropName(ImageOfMask(a), s), ImageCropName(ImageOfMask(b), t));
    ImageCropNameInjective(ImageOfMask(a), ImageOfMask(b), s, t);
  }

  lemma InLitCrops(out: string, m: Picture, name: string, side: Side)
    requires MaskWellNamed(m.name) && MaskWellNamed(name)
    ensures MaskCropPath(out, name, side) in LitCrops(out, m) <==> m.name == name && Max(m, side) > 0
  {
    var x := MaskCropPath(out, name, side);
    var l, r := MaskCropPath(out, m.name, Left), MaskCropPath(out, m.name, Right);
    MaskCropPathInjective(out, name, m.name, side, Left);
    MaskCropPathInjective(out, name, m.name, side, Right);
    assert x == l <==> name == m.name && side == Left;
    assert x == r <==> name == m.name && side == Right;
    InChoice(x, l, r, m.maxLeft > 0, m.maxRight > 0);
  }

  /** A mask crop path is among the mask keys exactly when that crop is not
      all black. */
  lemma {:induction false} InMaskKeys(out: string, masks: seq<Picture>, i: nat, side: Side)
    requires AllWellNamed(masks) && DistinctNames(masks) && i < |masks|
    ensures MaskCropPath(out, masks[i].name, side) in MaskKeys(out, masks) <==> Max(masks[i], side) > 0
    decreases |masks|
  {
    var init, m := masks[..|masks| - 1], masks[|masks| - 1];
    InLitCrops(out, m, masks[i].name, side);
    if i < |init| {
      assert init[i] == masks[i];
      InMaskKeys(out, init, i, side);
    } else {
      MaskAbsentBefore(out, init, masks[i].name, side);
    }
  }

  lemma {:induction false} MaskAbsentBefore(out: string, masks: seq<Picture>, name: string, side: Side)
    requires AllWellNamed(masks) && MaskWellNamed(name)
    requires forall k :: 0 <= k < |masks| ==> masks[k].name != name
    ensures MaskCropPath(out, name, side) !in MaskKeys(out, masks)
    decreases |masks|
  {
    if masks != [] {
      InLitCrops(out, masks[|masks| - 1], name, side);
      MaskAbsentBefore(out, masks[..|masks| - 1], name, side);
    }
  }

  /** On a paired dataset a mask crop is saved exactly when its largest pixel
      value is above 0. */
  lemma MaskCropSavedIff(out: string, images: seq<Picture>, masks: seq<Picture>, i: nat, side: Side)
    requires RootFree(out) && AllWellNamed(masks) && DistinctNames(masks) && Paired(images, masks)
    requires AllCropsSavable(out, images)
    requires i < |masks|
    ensures MaskCropPath(out, masks[i].name, side) in Script(out, images, masks).files <==> Max(masks[i], side) > 0
  {
    PairedDatasetIsPruned(out, images, masks);
    InMaskKeys(out, masks, i, side);
    NoMaskPathIsImageKey(out, images, MaskCropName(masks[i].name, side));
  }

  /** On a paired dataset an image crop survives exactly when no mask of that
      image is all black on that side. */
  lemma ImageCropKeptIff(out: string, images: seq<Picture>, masks: seq<Picture>, i: nat, side: Side)
    requires RootFree(out) && AllWellNamed(masks) && DistinctNames(masks) && Paired(images, masks)
    requires AllCropsSavable(out, images)
    requires i < |images|
    ensures ImageCropPath(out, images[i].name, side) in Script(out, images, masks).files <==>
              !exists k :: 0 <= k < |masks| && ImageOfMask(masks[k].name) == images[i].name && Max(masks[k], side) == 0
  {
    PairedDatasetIsPruned(out, images, masks);
    ImageKeysHas(out, images, i, side);
    InPruned(out, masks, images[i].name, side);
    NoImagePathIsMaskKey(out, masks, ImageCropName(images[i].name, side));
  }

  /** Started from an empty output tree, the "masks" pass leaves nothing but
      mask crops that are not all black. */
  lemma {:induction false} MasksAloneKeepMaskCrops(out: string, masks: seq<Picture>)
    requires RootFree(out) && AllWellNamed(masks)
    ensures DirRun(Run(map[], false), out, "masks", masks).files.Keys <= MaskKeys(out, masks)
    decreases |masks|
  {
    if masks != [] {
      var init, m := masks[..|masks| - 1], masks[|masks| - 1];
      MasksAloneKeepMaskCrops(out, init);
      var r1 := DirRun(Run(map[], false), out, "masks", init);
      var r2 := ApplyOp(r1, CropOp(out, "masks", m, Left));
      MaskOpAddsLit(out, r1, m, Left);
      MaskOpAddsLit(out, r2, m, Right);
      assert MaskKeys(out, masks) == MaskKeys(out, init) + LitCrops(out, m);
    }
  }

  /** One side of a mask adds at most its own crop, when it is not all black. */
  lemma MaskOpAddsLit(out: string, r: Run, m: Picture, side: Side)
    requires RootFree(out) && MaskWellNamed(m.name)
    ensures ApplyOp(r, CropOp(out, "masks", m, side)).files.Keys <= r.files.Keys + LitCrops(out, m)
  {
    MaskCropOp(out, m, side);
  }

  /** The image pass must come first: without image crops in the output tree,
      an all-black mask crop makes `os.remove` raise. */
  lemma BlackMaskAloneCrashes(out: string, masks: seq<Picture>, i: nat)
    requires RootFree(out) && AllWellNamed(masks) && i < |masks|
    requires masks[i].maxLeft == 0 || masks[i].maxRight == 0
    ensures Script(out, [], masks).crashed
  {
    var r0 := Run(map[], false);
    var m := masks[i];
    assert masks[..i + 1][..i] == masks[..i];
    assert masks[..i + 1][i] == m;
    assert forall k :: 0 <= k < i ==> masks[..i][k] == masks[k];
    var r1 := DirRun(r0, out, "masks", masks[..i]);
    if !r1.crashed {
      MasksAloneKeepMaskCrops(out, masks[..i]);
      var n := ImageOfMask(m.name);
      NoImagePathIsMaskKey(out, masks[..i], ImageCropName(n, Left));
      NoImagePathIsMaskKey(out, masks[..i], ImageCropName(n, Right));
      MaskCropOp(out, m, Left);
      MaskCropOp(out, m, Right);
      DirsDiffer(out, ImageCropName(n, Right), MaskCropName(m.name, Left));
    }
    CrashedStays(r0, out, "masks", masks, i + 1);
  }

  /** The "images" pass does not stop when every crop is savable. */
  lemma {:induction false} ImagePassRuns(out: string, r: Run, images: seq<Picture>)
    requires !r.crashed && AllCropsSavable(out, images)
    ensures !DirRun(r, out, "images", images).crashed
    decreases |images|
  {
    if images != [] {
      ImagePassRuns(out, r, images[..|images| - 1]);
    }
  }

  /** After the "images" pass each image crop path holds the crop of its own
      image with the box of its own side. */
  lemma {:induction false} ImagePassContents(out: string, r: Run, images: seq<Picture>, i: nat, side: Side)
    requires !r.crashed && DistinctNames(images) && AllCropsSavable(out, images) && i < |images|
    ensures ImageCropPath(out, images[i].name, side) in DirRun(r, out, "images", images).files
    ensures DirRun(r, out, "images", images).files[ImageCropPath(out, images[i].name, side)] == CropOf(images[i], side)
    decreases |images|
  {
    var init, p := images[..|images| - 1], images[|images| - 1];
    ContentsPrefix(out, images, i);
    ImagePassRuns(out, r, init);
    ImageFileStep(out, DirRun(r, out, "images", init), p);
    var files := DirRun(r, out, "images", init).files;
    if i < |init| {
      ImagePassContents(out, r, init, i, side);
      SaveKeepsOther(files, out, p, images[i].name, side);
    } else {
      assert i == |images| - 1;
      SaveStoresBoth(files, out, p, side);
    }
  }

  /** What the proof above needs of the images before the last one. */
  lemma ContentsPrefix(out: string, images: seq<Picture>, i: nat)
    requires DistinctNames(images) && AllCropsSavable(out, images) && i < |images|
    ensures var init, p := images[..|images| - 1], images[|images| - 1];
            DistinctNames(init) && AllCropsSavable(out, init) &&
            (i < |init| ==> init[i] == images[i] && images[i].name != p.name)
  {
    var init := images[..|images| - 1];
    assert forall k :: 0 <= k < |init| ==> init[k] == images[k];
  }

  /** Saving both crops of p leaves the crop of another image as it was. */
  lemma SaveKeepsOther(files: map<string, Crop>, out: string, p: Picture, name: string, side: Side)
    requires name != p.name && ImageCropPath(out, name, side) in files
    ensures var k := ImageCropPath(out, name, side);
            var files' := files[ImageCropPath(out, p.name, Left) := CropOf(p, Left)][ImageCropPath(out, p.name, Right) := CropOf(p, Right)];
            k in files' && files'[k] == files[k]
  {
    var k := ImageCropPath(out, name, side);
    var kl, kr := ImageCropPath(out, p.name, Left), ImageCropPath(out, p.name, Right);
    ImageCropPathInjective(out, name, p.name, side, Left);
    ImageCropPathInjective(out, name, p.name, side, Right);
    LookupPastTwo(files, kl, CropOf(p, Left), kr, CropOf(p, Right), k);
  }

  /** Saving both crops of p stores each under its own path. */
  lemma SaveStoresBoth(files: map<string, Crop>, out: string, p: Picture, side: Side)
    ensures var k := ImageCropPath(out, p.name, side);
            var files' := files[ImageCropPath(out, p.name, Left) := CropOf(p, Left)][ImageCropPath(out, p.name, Right) := CropOf(p, Right)];
            k in files' && files'[k] == CropOf(p, side)
  {
    ImageCropPathInjective(out, p.name, p.name, Left, Right);
  }

  /** The crop of an image with the box of one side. */
  function CropOf(p: Picture, side: Side): Crop {
    Crop("images", p.name, CropBox(side, p.width, p.height))
  }

  /** Two updates at other keys leave a lookup as it was. */
  lemma LookupPastTwo<K, V>(m: map<K, V>, a: K, va: V, b: K, vb: V, k: K)
    requires k != a && k != b && k in m
    ensures k in m[a := va][b := vb] && m[a := va][b := vb][k] == m[k]
  {
  }
}
