/** Member photos: parsing asset file names and choosing the photo for a member. */
module Images {
  import opened Wrappers
  import opened Catalog
  import Seqs
  import opened Text

  /** `path.split("/").pop()`: the part after the last `/`, or the whole path. */
  function LastSegment(path: string): (r: string)
    ensures '/' !in r
  {
    if path == [] then []
    else if path[|path| - 1] == '/' then []
    else LastSegment(path[..|path| - 1]) + [path[|path| - 1]]
  }

  /** The last segment is a suffix of the path, preceded by a `/` unless it is the whole path. */
  lemma {:induction false} LastSegmentIsTail(path: string)
    ensures var r := LastSegment(path);
      |r| <= |path| && r == path[|path| - |r|..] &&
      (|r| < |path| ==> path[|path| - |r| - 1] == '/')
  {
    if path != [] && path[|path| - 1] != '/' {
      var init := path[..|path| - 1];
      var c := path[|path| - 1];
      LastSegmentIsTail(init);
      var r0 := LastSegment(init);
      assert LastSegment(path) == r0 + [c];
      assert path == init + [c];
      assert path[|path| - |r0| - 1..] == init[|init| - |r0|..] + [c];
      if |r0| < |init| {
        assert path[|path| - |r0| - 2] == init[|init| - |r0| - 1];
      }
    }
  }

  function LowerAscii(c: char): char
  {
    if 'A' <= c <= 'Z' then (c as int + 32) as char else c
  }

  function LowerAll(t: string): (r: string)
  {
    seq(|t|, i requires 0 <= i < |t| => LowerAscii(t[i]))
  }

  /** `s` ends with the lower-case `suffix`, ignoring the case of ASCII letters. */
  predicate EndsWithIgnoringCase(s: string, suffix: string)
  {
    |suffix| <= |s| && LowerAll(s[|s| - |suffix|..]) == suffix
  }

  /** The extensions the asset pattern admits, as `/\.(png|jpe?g|webp)$/i` spells them. */
  const ImageExtensions: seq<string> := [".png", ".jpg", ".jpeg", ".webp"]

  /** `fileName.replace(/\.(png|jpe?g|webp)$/i, "")`: one trailing image extension removed. */
  function StripImageExtension(f: string): (r: string)
    ensures r == f || exists e :: e in ImageExtensions && EndsWithIgnoringCase(f, e) && r == f[..|f| - |e|]
    ensures r == f <==> forall e :: e in ImageExtensions ==> !EndsWithIgnoringCase(f, e)
  {
    if EndsWithIgnoringCase(f, ".png") then f[..|f| - 4]
    else if EndsWithIgnoringCase(f, ".jpg") then f[..|f| - 4]
    else if EndsWithIgnoringCase(f, ".jpeg") then f[..|f| - 5]
    else if EndsWithIgnoringCase(f, ".webp") then f[..|f| - 5]
    else f
  }

  /**
   * One `(path, src)` asset entry: the base name is split on `_`, its first two
   * pieces are the student number and the name, and an entry missing either is dropped.
   */
  function ParseImage(path: string, src: string): (r: Option<MemberImage>)
    ensures r.Some? ==> r.value.studentNumber != [] && r.value.name != [] && r.value.src == src
    ensures r.Some? ==> '_' !in r.value.studentNumber && '_' !in r.value.name
  {
    var parts := Split(StripImageExtension(LastSegment(path)), '_');
    if |parts| < 2 || parts[0] == [] || parts[1] == [] then None
    else Some(MemberImage(parts[0], parts[1], src))
  }

  /** `parsedImages`: every entry parsed, the failures dropped, the order kept. */
  function ParseImages(entries: seq<(string, string)>): (r: seq<MemberImage>)
    ensures |r| <= |entries|
    ensures forall img :: img in r ==> exists e :: e in entries && ParseImage(e.0, e.1) == Some(img)
    ensures forall e :: e in entries && ParseImage(e.0, e.1).Some? ==> ParseImage(e.0, e.1).value in r
  {
    if entries == [] then []
    else
      var rest := ParseImages(entries[1..]);
      assert forall e :: e in entries[1..] ==> e in entries;
      match ParseImage(entries[0].0, entries[0].1)
      case None => rest
      case Some(img) => [img] + rest
  }

  lemma {:induction false} ParseImagesAppend(xs: seq<(string, string)>, ys: seq<(string, string)>)
    ensures ParseImages(xs + ys) == ParseImages(xs) + ParseImages(ys)
  {
    if xs == [] {
      assert xs + ys == ys;
    } else {
      assert (xs + ys)[1..] == xs[1..] + ys;
      ParseImagesAppend(xs[1..], ys);
    }
  }

  /** The last segment of a path in a directory is the file name. */
  lemma {:induction false} LastSegmentOfFile(dir: string, file: string)
    requires dir == [] || dir[|dir| - 1] == '/'
    requires '/' !in file
    ensures LastSegment(dir + file) == file
  {
    if file == [] {
      assert dir + file == dir;
    } else {
      var p := dir + file;
      assert p[..|p| - 1] == dir + file[..|file| - 1];
      assert p[|p| - 1] == file[|file| - 1];
      LastSegmentOfFile(dir, file[..|file| - 1]);
      assert file == file[..|file| - 1] + [file[|file| - 1]];
    }
  }

  /** Whether a string ends with a suffix no longer than `ext` is decided by `ext` alone. */
  lemma EndsWithAppended(base: string, ext: string, e: string)
    requires |e| <= |ext|
    ensures EndsWithIgnoringCase(base + ext, e) <==> EndsWithIgnoringCase(ext, e)
  {
    var f := base + ext;
    assert f[|f| - |e|..] == ext[|ext| - |e|..];
  }

  /** An extension matches itself, so the appended extension is cut off when no earlier test fires. */
  lemma EndsWithOwnExtension(base: string, ext: string)
    requires ext in ImageExtensions
    ensures EndsWithIgnoringCase(base + ext, ext)
    ensures (base + ext)[..|base + ext| - |ext|] == base
  {
    var f := base + ext;
    EndsWithAppended(base, ext, ext);
    assert ext[0..] == ext;
    assert LowerAll(ext) == ext;
    assert f[..|f| - |ext|] == base;
  }

  /** Only a name ending in `.png` loses `.png`. */
  lemma NotPng(base: string, ext: string)
    requires ext in [".jpg", ".jpeg", ".webp"]
    ensures !EndsWithIgnoringCase(base + ext, ".png")
  {
    EndsWithAppended(base, ext, ".png");
    var t := ext[|ext| - 4..];
    assert LowerAll(t)[1] != 'p' || LowerAll(t)[2] != 'n';
  }

  /** Neither `.jpeg` nor `.webp` ends in `.jpg`. */
  lemma NotJpg(base: string, ext: string)
    requires ext in [".jpeg", ".webp"]
    ensures !EndsWithIgnoringCase(base + ext, ".jpg")
  {
    EndsWithAppended(base, ext, ".jpg");
    assert LowerAll(ext[|ext| - 4..])[0] != '.';
  }

  /** `.webp` does not end in `.jpeg`. */
  lemma WebpNotJpeg(base: string)
    ensures !EndsWithIgnoringCase(base + ".webp", ".jpeg")
  {
    EndsWithAppended(base, ".webp", ".jpeg");
    assert LowerAll(".webp"[0..])[4] != 'g';
  }

  /** A base name followed by one of the image extensions loses exactly that extension. */
  lemma StripAddedExtension(base: string, ext: string)
    requires ext in ImageExtensions
    ensures StripImageExtension(base + ext) == base
  {
    EndsWithOwnExtension(base, ext);
    if ext != ".png" {
      NotPng(base, ext);
    }
    if ext == ".jpeg" || ext == ".webp" {
      NotJpg(base, ext);
    }
    if ext == ".webp" {
      WebpNotJpeg(base);
    }
  }

  /** No image extension contains `/`. */
  lemma ExtensionHasNoSlash(ext: string)
    requires ext in ImageExtensions
    ensures '/' !in ext
  {
  }

  /** The file name of `dir/base.ext`, extension removed, is `base`. */
  lemma BaseNameOfAsset(dir: string, base: string, ext: string)
    requires dir == [] || dir[|dir| - 1] == '/'
    requires '/' !in base && ext in ImageExtensions
    ensures StripImageExtension(LastSegment(dir + base + ext)) == base
  {
    var file := base + ext;
    assert dir + base + ext == dir + file;
    ExtensionHasNoSlash(ext);
    assert '/' !in file;
    LastSegmentOfFile(dir, file);
    StripAddedExtension(base, ext);
  }

  /** For an asset path `dir/base.ext`, the outcome is decided by the `_`-pieces of `base` alone. */
  lemma ParseImageOfBase(dir: string, base: string, ext: string, src: string)
    requires dir == [] || dir[|dir| - 1] == '/'
    requires '/' !in base && ext in ImageExtensions
    ensures var parts := Split(base, '_');
      ParseImage(dir + base + ext, src) ==
        if |parts| < 2 || parts[0] == [] || parts[1] == [] then None
        else Some(MemberImage(parts[0], parts[1], src))
  {
    BaseNameOfAsset(dir, base, ext);
  }

  /** Pieces after the second `_` are ignored: `dir/sn_name_rest.ext` keeps `sn` and `name`. */
  lemma ParseImageExtraPieces(dir: string, studentNumber: string, name: string, rest: string, ext: string, src: string)
    requires dir == [] || dir[|dir| - 1] == '/'
    requires studentNumber != [] && name != []
    requires '_' !in studentNumber && '_' !in name && '/' !in studentNumber && '/' !in name && '/' !in rest
    requires ext in ImageExtensions
    ensures ParseImage(dir + studentNumber + "_" + name + "_" + rest + ext, src) == Some(MemberImage(studentNumber, name, src))
  {
    var tail := name + "_" + rest;
    var base := studentNumber + "_" + tail;
    assert dir + studentNumber + "_" + name + "_" + rest + ext == dir + base + ext;
    assert '/' !in tail;
    assert '/' !in base;
    ParseImageOfBase(dir, base, ext, src);
    SplitFirstTwo(studentNumber, name, rest);
  }

  /** Splitting `a_b_rest` on `_` yields `a`, then `b`, then the pieces of `rest`. */
  lemma SplitFirstTwo(a: string, b: string, rest: string)
    requires '_' !in a && '_' !in b
    ensures var parts := Split(a + "_" + (b + "_" + rest), '_');
      |parts| >= 2 && parts[0] == a && parts[1] == b
  {
    SplitAtSeparator(a, '_', b + "_" + rest);
    SplitAtSeparator(b, '_', rest);
  }

  /** An entry whose file name starts with `_` has an empty student number and is dropped. */
  lemma ParseImageEmptyNumber(dir: string, name: string, ext: string, src: string)
    requires dir == [] || dir[|dir| - 1] == '/'
    requires '/' !in name && ext in ImageExtensions
    ensures ParseImage(dir + "_" + name + ext, src) == None
  {
    var base := "_" + name;
    assert dir + "_" + name + ext == dir + base + ext;
    assert base == [] + ['_'] + name;
    ParseImageOfBase(dir, base, ext, src);
    SplitAtSeparator([], '_', name);
  }

  /** An entry whose file name ends in `_` before the extension has an empty name and is dropped. */
  lemma ParseImageEmptyName(dir: string, studentNumber: string, ext: string, src: string)
    requires dir == [] || dir[|dir| - 1] == '/'
    requires '_' !in studentNumber && '/' !in studentNumber && ext in ImageExtensions
    ensures ParseImage(dir + studentNumber + "_" + ext, src) == None
  {
    var base := studentNumber + "_";
    assert dir + studentNumber + "_" + ext == dir + base + ext;
    assert base == studentNumber + ['_'] + [];
    ParseImageOfBase(dir, base, ext, src);
    SplitAtSeparator(studentNumber, '_', []);
  }

  /** An entry whose file name has no `_` has no name piece and is dropped. */
  lemma ParseImageNoUnderscore(dir: string, studentNumber: string, ext: string, src: string)
    requires dir == [] || dir[|dir| - 1] == '/'
    requires '_' !in studentNumber && '/' !in studentNumber && ext in ImageExtensions
    ensures ParseImage(dir + studentNumber + ext, src) == None
  {
    ParseImageOfBase(dir, studentNumber, ext, src);
    SplitNoSeparator(studentNumber, '_');
  }

  /**
   * Parsing an asset path `dir/studentNumber_name.ext` recovers the student
   * number, the name and the source handle.
   */
  lemma ParseImageOfFileName(dir: string, studentNumber: string, name: string, ext: string, src: string)
    requires dir == [] || dir[|dir| - 1] == '/'
    requires studentNumber != [] && name != []
    requires '_' !in studentNumber && '_' !in name && '/' !in studentNumber && '/' !in name
    requires ext in ImageExtensions
    ensures ParseImage(dir + studentNumber + "_" + name + ext, src) == Some(MemberImage(studentNumber, name, src))
  {
    var base := studentNumber + "_" + name;
    var file := base + ext;
    assert dir + studentNumber + "_" + name + ext == dir + file;
    assert '/' !in file by {
      assert '/' !in ext;
      assert '/' !in "_";
      assert file == studentNumber + "_" + name + ext;
    }
    LastSegmentOfFile(dir, file);
    StripAddedExtension(base, ext);
    SplitAtSeparator(studentNumber, '_', name);
    SplitNoSeparator(name, '_');
    assert Split(base, '_') == [studentNumber, name];
  }

  /** The image's name contains the member's name once both are normalised. */
  predicate NameHit(nameKey: string, image: MemberImage)
  {
    Contains(NormalizeName(image.name), nameKey)
  }

  predicate NumberHit(studentNumber: string, image: MemberImage)
  {
    image.studentNumber == studentNumber
  }

  /** `images[i]` is the first image whose name matches `nameKey`. */
  ghost predicate FirstNameHit(images: seq<MemberImage>, nameKey: string, i: int)
  {
    0 <= i < |images| && NameHit(nameKey, images[i]) && forall k :: 0 <= k < i ==> !NameHit(nameKey, images[k])
  }

  /** `images[i]` is the first image with student number `studentNumber`. */
  ghost predicate FirstNumberHit(images: seq<MemberImage>, studentNumber: string, i: int)
  {
    0 <= i < |images| && NumberHit(studentNumber, images[i]) && forall k :: 0 <= k < i ==> !NumberHit(studentNumber, images[k])
  }

  /** `images.find` by name: the position of the first name match. */
  function FindByName(images: seq<MemberImage>, nameKey: string): (r: Option<nat>)
    ensures r.Some? ==> FirstNameHit(images, nameKey, r.value)
    ensures r.None? <==> forall k :: 0 <= k < |images| ==> !NameHit(nameKey, images[k])
  {
    Seqs.FindFirst(images, img => NameHit(nameKey, img))
  }

  /** `images.find` by student number: the position of the first equal student number. */
  function FindByNumber(images: seq<MemberImage>, studentNumber: string): (r: Option<nat>)
    ensures r.Some? ==> FirstNumberHit(images, studentNumber, r.value)
    ensures r.None? <==> forall k :: 0 <= k < |images| ==> !NumberHit(studentNumber, images[k])
  {
    Seqs.FindFirst(images, img => NumberHit(studentNumber, img))
  }

  /** At most one position is the first match. */
  lemma FirstNameHitUnique(images: seq<MemberImage>, nameKey: string, i: int, j: int)
    requires FirstNameHit(images, nameKey, i) && FirstNameHit(images, nameKey, j)
    ensures i == j
  {
  }

  lemma FirstNumberHitUnique(images: seq<MemberImage>, studentNumber: string, i: int, j: int)
    requires FirstNumberHit(images, studentNumber, i) && FirstNumberHit(images, studentNumber, j)
    ensures i == j
  {
  }

  /**
   * `resolveImage`: the first image whose name matches wins; failing that the
   * first image with the member's student number; failing both, no image.
   */
  function ResolveImage(member: Member, images: seq<MemberImage>): (r: string)
    ensures forall i :: FirstNameHit(images, NormalizeName(member.name), i) ==> r == images[i].src
    ensures (forall k :: 0 <= k < |images| ==> !NameHit(NormalizeName(member.name), images[k])) ==>
              forall i :: FirstNumberHit(images, member.studentNumber, i) ==> r == images[i].src
    ensures (forall k :: 0 <= k < |images| ==>
               !NameHit(NormalizeName(member.name), images[k]) && !NumberHit(member.studentNumber, images[k])) ==> r == []
  {
    var key := NormalizeName(member.name);
    match FindByName(images, key)
    case Some(i) =>
      assert forall j :: FirstNameHit(images, key, j) ==> j == i by {
        forall j | FirstNameHit(images, key, j) ensures j == i { FirstNameHitUnique(images, key, i, j); }
      }
      images[i].src
    case None =>
      match FindByNumber(images, member.studentNumber)
      case Some(j) =>
        assert forall n :: FirstNumberHit(images, member.studentNumber, n) ==> n == j by {
          forall n | FirstNumberHit(images, member.studentNumber, n) ensures n == j {
            FirstNumberHitUnique(images, member.studentNumber, j, n);
          }
        }
        images[j].src
      case None => []
  }
}
