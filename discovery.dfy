/** Pair discovery: the scan of the input folder that pairs each image with the
    YOLO label file of the same base name, and records the images without a
    label and the labels without an image. */
module Discovery {
  import opened Paths

  const ImageExtensions: seq<string> := [".jpg", ".jpeg", ".png", ".bmp", ".tiff"]
  const LabelExtension: string := ".txt"

  /** The input folder as the scan sees it: `entries` in the order os.listdir
      returns them, and the set of those names that are regular files
      (os.path.isfile). os.path.exists of a name in the folder is membership
      in `entries`. */
  datatype Folder = Folder(entries: seq<string>, files: set<string>)
  {
    predicate Exists(name: string)
    {
      name in entries
    }

    /** What a directory listing guarantees: distinct plain names. */
    predicate Valid()
    {
      (forall i, j :: 0 <= i < j < |entries| ==> entries[i] != entries[j])
      && (forall n :: n in entries ==> Sep !in n)
    }
  }

  /** An image path and the path of its label file. */
  datatype Pair = Pair(imagePath: string, labelPath: string)

  /** The variables the scan fills: the pairs, the two diagnostic lists and
      the two counters of recognised files. */
  datatype Scan = Scan(
    pairs: seq<Pair>,
    missingLabels: seq<string>,
    missingImages: seq<string>,
    imageFilesFound: nat,
    labelFilesFound: nat)

  /** Base name of a file name, as os.path.splitext gives it. */
  function Base(name: string): string
  {
    SplitExt(name).0
  }

  /** Lower-cased extension of a file name. */
  function Ext(name: string): string
  {
    Lower(SplitExt(name).1)
  }

  predicate IsImageName(name: string)
  {
    Ext(name) in ImageExtensions
  }

  predicate IsLabelName(name: string)
  {
    Ext(name) == LabelExtension
  }

  /** The label file an image is paired with: its base name plus ".txt". */
  function LabelName(name: string): string
  {
    Base(name) + LabelExtension
  }

  /** Some image extension, exactly as configured (lower case), completes
      `base` to a name that exists in the folder. */
  predicate HasImageFor(f: Folder, base: string)
  {
    exists e :: e in ImageExtensions && f.Exists(base + e)
  }

  /** The pair emitted for an image file named `name` in folder `dir`. */
  function PairFor(dir: string, name: string): Pair
  {
    Pair(Join(dir, name), Join(dir, LabelName(name)))
  }

  /** A listed regular file whose lower-cased extension is an image extension. */
  predicate IsImageFile(f: Folder, name: string)
  {
    name in f.files && IsImageName(name)
  }

  /** A listed regular file whose lower-cased extension is ".txt". */
  predicate IsLabelFile(f: Folder, name: string)
  {
    name in f.files && IsLabelName(name)
  }

  /** An image file whose label (base name plus ".txt") exists. */
  predicate Pairable(f: Folder, name: string)
  {
    IsImageFile(f, name) && f.Exists(LabelName(name))
  }

  /** An image file whose label does not exist. */
  predicate LacksLabel(f: Folder, name: string)
  {
    IsImageFile(f, name) && !f.Exists(LabelName(name))
  }

  /** A label file for whose base name no lower-case image extension exists. */
  predicate LacksImage(f: Folder, name: string)
  {
    IsLabelFile(f, name) && !HasImageFor(f, Base(name))
  }

  /** What one directory entry contributes to the scan. */
  function ScanStep(dir: string, f: Folder, s: Scan, name: string): Scan
  {
    Scan(
      s.pairs + (if Pairable(f, name) then [PairFor(dir, name)] else []),
      s.missingLabels + (if LacksLabel(f, name) then [name] else []),
      s.missingImages + (if LacksImage(f, name) then [name] else []),
      s.imageFilesFound + (if IsImageFile(f, name) then 1 else 0),
      s.labelFilesFound + (if IsLabelFile(f, name) then 1 else 0))
  }

  /** The scan after the entries `names`, in order. */
  function ScanOf(dir: string, f: Folder, names: seq<string>): Scan
    decreases |names|
  {
    if names == [] then Scan([], [], [], 0, 0)
    else ScanStep(dir, f, ScanOf(dir, f, names[..|names| - 1]), names[|names| - 1])
  }

  /** The inner search of the scan: tries the image extensions in their
      configured order and stops at the first that completes `base` to an
      existing name. */
  method FindImage(f: Folder, base: string) returns (imageFound: bool)
    ensures imageFound <==> HasImageFor(f, base)
  {
    imageFound := false;
    var k := 0;
    while k < |ImageExtensions|
      invariant 0 <= k <= |ImageExtensions|
      invariant !imageFound
      invariant forall j :: 0 <= j < k ==> !f.Exists(base + ImageExtensions[j])
    {
      if f.Exists(base + ImageExtensions[k]) {
        imageFound := true;
        break;
      }
      k := k + 1;
    }
  }

  /** The body of the scan loop for one listed name: classify it by its
      lower-cased extension and update the pairs, lists and counters. */
  method ScanEntry(dir: string, f: Folder, s: Scan, filename: string) returns (t: Scan)
    ensures t == ScanStep(dir, f, s, filename)
  {
    t := s;
    var filePath := Join(dir, filename);
    if filename in f.files {
      var (baseName, e) := SplitExt(filename);
      var ext := Lower(e);
      assert ext == Ext(filename) && baseName == Base(filename);
      if ext in ImageExtensions {
        assert IsImageFile(f, filename) && !IsLabelFile(f, filename);
        t := t.(imageFilesFound := t.imageFilesFound + 1);
        var labelFile := baseName + LabelExtension;
        if f.Exists(labelFile) {
          assert Pairable(f, filename) && !LacksLabel(f, filename) && !LacksImage(f, filename);
          assert Pair(filePath, Join(dir, labelFile)) == PairFor(dir, filename);
          t := t.(pairs := t.pairs + [Pair(filePath, Join(dir, labelFile))]);
          assert t.missingLabels == s.missingLabels + [];
          assert t.missingImages == s.missingImages + [];
          assert t == ScanStep(dir, f, s, filename);
        } else {
          assert !Pairable(f, filename) && LacksLabel(f, filename);
          t := t.(missingLabels := t.missingLabels + [filename]);
          assert t == ScanStep(dir, f, s, filename);
        }
      } else if ext == LabelExtension {
        assert !IsImageFile(f, filename) && IsLabelFile(f, filename);
        t := t.(labelFilesFound := t.labelFilesFound + 1);
        var imageFound := FindImage(f, baseName);
        if !imageFound {
          t := t.(missingImages := t.missingImages + [filename]);
        }
        assert t == ScanStep(dir, f, s, filename);
      } else {
        assert !IsImageFile(f, filename) && !IsLabelFile(f, filename);
        assert t == ScanStep(dir, f, s, filename);
      }
    } else {
      assert t == ScanStep(dir, f, s, filename);
    }
  }

  /** The scan loop of the script, over the folder's entries in listing order. */
  method DiscoverPairs(dir: string, f: Folder) returns (s: Scan)
    ensures s == ScanOf(dir, f, f.entries)
  {
    s := Scan([], [], [], 0, 0);
    var i := 0;
    while i < |f.entries|
      invariant 0 <= i <= |f.entries|
      invariant s == ScanOf(dir, f, f.entries[..i])
    {
      assert f.entries[..i + 1][..i] == f.entries[..i];
      s := ScanEntry(dir, f, s, f.entries[i]);
      i := i + 1;
    }
    assert f.entries[..i] == f.entries;
  }

  /** The image files of the folder. */
  function ImageFiles(f: Folder): set<string>
  {
    set n | n in f.files && IsImageName(n)
  }

  /** The label files of the folder. */
  function LabelFiles(f: Folder): set<string>
  {
    set n | n in f.files && IsLabelName(n)
  }

  /** The positions in `names` that hold one of the names in `chosen`. */
  function PositionsIn(names: seq<string>, chosen: set<string>): set<int>
  {
    set i | 0 <= i < |names| && names[i] in chosen
  }

  /** Appending an entry adds its own position, and only when it is chosen. */
  lemma PositionsInAppend(names: seq<string>, chosen: set<string>)
    requires names != []
    ensures |PositionsIn(names, chosen)|
         == |PositionsIn(names[..|names| - 1], chosen)| + (if names[|names| - 1] in chosen then 1 else 0)
  {
    var last := |names| - 1;
    var before := PositionsIn(names[..last], chosen);
    assert last !in before;
    if names[last] in chosen {
      assert PositionsIn(names, chosen) == before + {last};
    } else {
      assert PositionsIn(names, chosen) == before;
    }
  }

  /** The two counters count the image files and the label files among the
      entries; every image file is either paired or reported as missing its
      label, and no more labels are reported than were recognised. */
  lemma {:induction false} ScanCounters(dir: string, f: Folder, names: seq<string>)
    ensures ScanOf(dir, f, names).imageFilesFound == |PositionsIn(names, ImageFiles(f))|
    ensures ScanOf(dir, f, names).labelFilesFound == |PositionsIn(names, LabelFiles(f))|
    ensures ScanOf(dir, f, names).imageFilesFound
         == |ScanOf(dir, f, names).pairs| + |ScanOf(dir, f, names).missingLabels|
    ensures |ScanOf(dir, f, names).missingImages| <= ScanOf(dir, f, names).labelFilesFound
    decreases |names|
  {
    if names != [] {
      ScanCounters(dir, f, names[..|names| - 1]);
      var last := names[|names| - 1];
      assert IsImageFile(f, last) <==> last in ImageFiles(f);
      assert IsLabelFile(f, last) <==> last in LabelFiles(f);
      PositionsInAppend(names, ImageFiles(f));
      PositionsInAppend(names, LabelFiles(f));
    } else {
      assert PositionsIn(names, ImageFiles(f)) == {} && PositionsIn(names, LabelFiles(f)) == {};
    }
  }

  /** An entry is reported as missing its label exactly when it is an image
      file whose base name plus ".txt" does not exist. */
  lemma {:induction false} MissingLabelsExactly(dir: string, f: Folder, names: seq<string>, n: string)
    ensures n in ScanOf(dir, f, names).missingLabels
        <==> n in names && n in f.files && IsImageName(n) && !f.Exists(LabelName(n))
    decreases |names|
  {
    if names != [] {
      var init := names[..|names| - 1];
      MissingLabelsExactly(dir, f, init, n);
      assert names == init + [names[|names| - 1]];
    }
  }

  /** An entry is reported as missing its image exactly when it is a file
      whose lower-cased extension is ".txt" and no lower-case image extension
      completes its base name to an existing name. */
  lemma {:induction false} MissingImagesExactly(dir: string, f: Folder, names: seq<string>, n: string)
    ensures n in ScanOf(dir, f, names).missingImages
        <==> n in names && n in f.files && IsLabelName(n) && !HasImageFor(f, Base(n))
    decreases |names|
  {
    if names != [] {
      var init := names[..|names| - 1];
      MissingImagesExactly(dir, f, init, n);
      assert names == init + [names[|names| - 1]];
    }
  }

  /** Every emitted pair belongs to an image file among the scanned entries
      whose label exists; the image keeps its own name and the label is the
      image's base name plus ".txt". */
  lemma {:induction false} PairsSound(dir: string, f: Folder, names: seq<string>)
    requires forall n :: n in names ==> Sep !in n
    ensures forall p :: p in ScanOf(dir, f, names).pairs ==>
      var n := Basename(p.imagePath);
      n in names && n in f.files && IsImageName(n) && f.Exists(LabelName(n)) && p == PairFor(dir, n)
    decreases |names|
  {
    if names != [] {
      var init := names[..|names| - 1];
      var last := names[|names| - 1];
      PairsSound(dir, f, init);
      BasenameOfJoin(dir, last);
      var prev := ScanOf(dir, f, init);
      var s := ScanOf(dir, f, names);
      assert s.pairs == prev.pairs || s.pairs == prev.pairs + [PairFor(dir, last)];
      forall p | p in s.pairs
        ensures var n := Basename(p.imagePath);
          n in names && n in f.files && IsImageName(n) && f.Exists(LabelName(n)) && p == PairFor(dir, n)
      {
        if p !in prev.pairs {
          assert p == PairFor(dir, last);
        }
      }
    }
  }

  /** Every image file among the scanned entries whose label exists yields
      its pair. */
  lemma {:induction false} PairsComplete(dir: string, f: Folder, names: seq<string>, n: string)
    requires n in names && n in f.files && IsImageName(n) && f.Exists(LabelName(n))
    ensures PairFor(dir, n) in ScanOf(dir, f, names).pairs
    decreases |names|
  {
    var init := names[..|names| - 1];
    if n != names[|names| - 1] {
      assert names == init + [names[|names| - 1]];
      PairsComplete(dir, f, init, n);
    }
  }

  /** A pair is emitted for a listed name exactly when it is an image file
      (extension compared in lower case) whose base name plus ".txt" exists;
      such an image is never also reported as missing its label. */
  lemma PairedExactly(f: Folder, dir: string, n: string)
    requires f.Valid()
    requires Sep !in n
    ensures PairFor(dir, n) in ScanOf(dir, f, f.entries).pairs
        <==> n in f.entries && n in f.files && IsImageName(n) && f.Exists(LabelName(n))
    ensures PairFor(dir, n) in ScanOf(dir, f, f.entries).pairs ==> n !in ScanOf(dir, f, f.entries).missingLabels
  {
    PairsSound(dir, f, f.entries);
    BasenameOfJoin(dir, n);
    if n in f.entries && n in f.files && IsImageName(n) && f.Exists(LabelName(n)) {
      PairsComplete(dir, f, f.entries, n);
    }
    MissingLabelsExactly(dir, f, f.entries, n);
  }

  /** The image of every pair is one of the scanned names, joined to the
      folder path. */
  lemma {:induction false} PairImagesListed(dir: string, f: Folder, names: seq<string>)
    requires forall n :: n in names ==> Sep !in n
    ensures forall i :: 0 <= i < |ScanOf(dir, f, names).pairs| ==>
      Basename(ScanOf(dir, f, names).pairs[i].imagePath) in names
    decreases |names|
  {
    if names != [] {
      var init := names[..|names| - 1];
      var last := names[|names| - 1];
      PairImagesListed(dir, f, init);
      BasenameOfJoin(dir, last);
      var ps := ScanOf(dir, f, init).pairs;
      var qs := ScanOf(dir, f, names).pairs;
      forall i | 0 <= i < |qs|
        ensures Basename(qs[i].imagePath) in names
      {
        if i < |ps| {
          assert qs[i] == ps[i];
          assert Basename(ps[i].imagePath) in init;
        } else {
          assert qs[i] == PairFor(dir, last);
        }
      }
    }
  }

  /** The image paths of `ps` are pairwise distinct. */
  predicate DistinctImages(ps: seq<Pair>)
  {
    forall i, j :: 0 <= i < j < |ps| ==> ps[i].imagePath != ps[j].imagePath
  }

  lemma AppendDistinctImage(ps: seq<Pair>, p: Pair)
    requires DistinctImages(ps)
    requires forall i :: 0 <= i < |ps| ==> ps[i].imagePath != p.imagePath
    ensures DistinctImages(ps + [p])
  {
    var qs := ps + [p];
    forall i, j | 0 <= i < j < |qs|
      ensures qs[i].imagePath != qs[j].imagePath
    {
      assert qs[i] == ps[i];
      if j < |ps| {
        assert qs[j] == ps[j];
      }
    }
  }

  /** No image is paired twice: the pairs' image paths are distinct. */
  lemma {:induction false} PairsDistinct(dir: string, f: Folder, names: seq<string>)
    requires forall n :: n in names ==> Sep !in n
    requires forall i, j :: 0 <= i < j < |names| ==> names[i] != names[j]
    ensures DistinctImages(ScanOf(dir, f, names).pairs)
    decreases |names|
  {
    if names != [] {
      var init := names[..|names| - 1];
      var last := names[|names| - 1];
      PairsDistinct(dir, f, init);
      var ps := ScanOf(dir, f, init).pairs;
      if Pairable(f, last) {
        PairImagesListed(dir, f, init);
        BasenameOfJoin(dir, last);
        assert last !in init;
        forall i | 0 <= i < |ps|
          ensures ps[i].imagePath != PairFor(dir, last).imagePath
        {
          assert Basename(ps[i].imagePath) in init;
        }
        AppendDistinctImage(ps, PairFor(dir, last));
      }
    }
  }

  /** The label paired with an image splits into the image's base name and
      the extension ".txt": image and label share their base name. */
  lemma LabelSharesBase(n: string)
    requires IsImageName(n)
    ensures SplitExt(LabelName(n)) == (Base(n), LabelExtension)
  {
    assert SplitExt(n).1 != [];
    SplitExtOfBasePlusExt(n, LabelExtension);
  }

  /** The label of a paired image whose extension is already in lower case is
      never reported as a label without an image. */
  lemma PairedLabelNotMissing(dir: string, f: Folder, n: string)
    requires n in f.entries && n in f.files && SplitExt(n).1 in ImageExtensions
    ensures LabelName(n) !in ScanOf(dir, f, f.entries).missingImages
  {
    var e := SplitExt(n).1;
    assert Lower(e) == e;
    LabelSharesBase(n);
    assert Base(LabelName(n)) == Base(n);
    assert Base(n) + e == n;
    MissingImagesExactly(dir, f, f.entries, LabelName(n));
  }

  /** The name "a" followed by a dot and three characters other than a dot or
      a separator splits into "a" and that extension. */
  lemma SplitExtOfShortName(ext: string)
    requires |ext| == 4 && ext[0] == ExtSep
    requires forall j :: 0 < j < 4 ==> ext[j] != ExtSep && ext[j] != Sep
    ensures SplitExt("a" + ext) == ("a", ext)
  {
    var p := "a" + ext;
    assert forall j :: 0 < j < |p| ==> p[j] == ext[j - 1];
    assert p[0] == 'a' && p[1] == ExtSep;
    LastIndexOfIsLast(p, ExtSep);
    LastIndexOfIsLast(p, Sep);
    assert LastIndexOf(p, ExtSep) == 1;
    assert LastIndexOf(p, Sep) == -1;
    assert p[0] != ExtSep && HasNonDot(p, 0, 1);
    assert p[..1] == "a" && p[1..] == ext;
  }

  /** The listing of the example: an image with an upper-case extension and
      its label. */
  function UpperCaseListing(): Folder
  {
    Folder(["a.JPG", "a.txt"], {"a.JPG", "a.txt"})
  }

  lemma UpperCaseImagePaired(dir: string)
    ensures PairFor(dir, "a.JPG") in ScanOf(dir, UpperCaseListing(), UpperCaseListing().entries).pairs
  {
    var f := UpperCaseListing();
    SplitExtOfShortName(".JPG");
    assert "a" + ".JPG" == "a.JPG";
    assert Lower(".JPG") == ".jpg";
    assert IsImageName("a.JPG");
    assert LabelName("a.JPG") == "a.txt";
    PairsComplete(dir, f, f.entries, "a.JPG");
  }

  lemma UpperCaseImageLabelMissing(dir: string)
    ensures "a.txt" in ScanOf(dir, UpperCaseListing(), UpperCaseListing().entries).missingImages
  {
    var f := Folder(["a.JPG", "a.txt"], {"a.JPG", "a.txt"});
    SplitExtOfShortName(".txt");
    assert "a" + ".txt" == "a.txt";
    assert Lower(".txt") == ".txt";
    assert IsLabelName("a.txt");
    forall e | e in ImageExtensions
      ensures !f.Exists("a" + e)
    {
      assert ("a" + e)[2] == e[1] && |"a" + e| == |e| + 1;
    }
    MissingImagesExactly(dir, f, f.entries, "a.txt");
  }

  /** The image extension is compared in lower case, but the search for the
      image of a label tries the lower-case extensions only. So an image
      "a.JPG" with its label "a.txt" is paired, and the same "a.txt" is also
      reported as a label without an image. */
  lemma UpperCaseImageExtension(dir: string)
    ensures PairFor(dir, "a.JPG") in ScanOf(dir, UpperCaseListing(), UpperCaseListing().entries).pairs
    ensures "a.txt" in ScanOf(dir, UpperCaseListing(), UpperCaseListing().entries).missingImages
  {
    UpperCaseImagePaired(dir);
    UpperCaseImageLabelMissing(dir);
  }

}
