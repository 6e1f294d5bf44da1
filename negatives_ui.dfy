/**
 * The pure parts of negatives/js/ui.js: the download file name, the
 * 0 / 1 / many dispatch of `handleDownloadAll`, and the visibility rule of
 * the "download all" button. Clicking links, fetching blobs and building the
 * archive are browser work; a download is represented by what it saves and
 * under which name.
 */
module NegativesUi {
  import opened ImageProcessor

  /** `s.lastIndexOf(c)`: the last position holding c, or -1. */
  function LastIndexOf(s: string, c: char): (r: int)
    ensures -1 <= r < |s|
    ensures r >= 0 ==> s[r] == c
    ensures forall j :: r < j < |s| ==> s[j] != c
  {
    if |s| == 0 then -1
    else if s[|s| - 1] == c then |s| - 1
    else LastIndexOf(s[..|s| - 1], c)
  }

  const Marker := "_negative"

  /** `getDownloadName`. */
  function GetDownloadName(originalName: string): (r: string)
    ensures |r| == |originalName| + |Marker|
  {
    var dotIndex := LastIndexOf(originalName, '.');
    if dotIndex == -1 then originalName + Marker
    else originalName[..dotIndex] + Marker + originalName[dotIndex..]
  }

  /** A name without a dot gets the marker at its end. */
  lemma DownloadNameWithoutDot(name: string)
    requires '.' !in name
    ensures GetDownloadName(name) == name + "_negative"
  {
  }

  /** For any split of a name into a base and an extension that starts at its
      last dot, the marker goes between the two, both kept intact. */
  lemma DownloadNameSplit(name: string, base: string, ext: string)
    requires name == base + ext
    requires |ext| > 0 && ext[0] == '.' && '.' !in ext[1..]
    ensures GetDownloadName(name) == base + "_negative" + ext
  {
    assert name[|base|] == '.';
    forall j | |base| < j < |name| ensures name[j] != '.' {
      assert name[j] == ext[1..][j - |base| - 1];
    }
    assert LastIndexOf(name, '.') == |base|;
    assert name[..|base|] == base && name[|base|..] == ext;
  }

  /** Only the last dot matters. */
  lemma DownloadNameLastDotExample()
    ensures GetDownloadName("a.b.png") == "a.b_negative.png"
  {
    assert "a.b.png" == "a.b" + ".png" && ".png"[1..] == "png";
    DownloadNameSplit("a.b.png", "a.b", ".png");
  }

  /** A leading dot is an empty base. */
  lemma DownloadNameLeadingDotExample()
    ensures GetDownloadName(".png") == "_negative.png"
  {
    assert ".png" == "" + ".png" && ".png"[1..] == "png";
    DownloadNameSplit(".png", "", ".png");
  }

  /** A name without a dot just gets the marker. */
  lemma DownloadNameNoDotExample()
    ensures GetDownloadName("photo") == "photo_negative"
  {
    assert '.' !in "photo";
    DownloadNameWithoutDot("photo");
  }

  /** The extension: the text from the last dot on, empty when there is none. */
  function Extension(name: string): string {
    var d := LastIndexOf(name, '.');
    if d == -1 then "" else name[d..]
  }

  /** The download name has the same extension as the original, and stripping
      the marker from it gives the original name back. */
  lemma DownloadNameKeepsExtension(name: string)
    ensures Extension(GetDownloadName(name)) == Extension(name)
    ensures var r := GetDownloadName(name); var d := |name| - |Extension(name)|;
      0 <= d && r[..d] + r[d + |Marker|..] == name && r[d..d + |Marker|] == Marker
  {
    var r := GetDownloadName(name);
    var d := LastIndexOf(name, '.');
    if d == -1 {
      assert forall j :: 0 <= j < |r| ==> r[j] != '.' by {
        forall j | 0 <= j < |r| ensures r[j] != '.' {
          if j >= |name| { assert r[j] == Marker[j - |name|]; }
          else { assert r[j] == name[j]; }
        }
      }
      assert LastIndexOf(r, '.') == -1;
      assert r[..|name|] == name;
    } else {
      var e := d + |Marker|;
      assert r[e] == '.';
      forall j | e < j < |r| ensures r[j] != '.' {
        assert r[j] == name[j - |Marker|];
      }
      assert LastIndexOf(r, '.') == e;
      assert r[e..] == name[d..];
      assert r[..d] == name[..d];
      assert r[d + |Marker|..] == name[d..];
    }
  }

  /** One file the browser saves: a single negative under a name, or one
      archive whose entries map file names to negatives. */
  datatype Download =
    | SaveFile(image: ProcessedImage, filename: string)
    | SaveZip(archive: map<string, ProcessedImage>, filename: string)

  const ZipName := "negative_images.zip"

  /** The download link each result carries (line 217), also used per item by
      `handleDownloadAll`. */
  function SaveAs(image: ProcessedImage): Download {
    SaveFile(image, GetDownloadName(image.name))
  }

  /** The `zip.file` call made for one negative. */
  function ZipEntry(image: ProcessedImage): (string, ProcessedImage) {
    (GetDownloadName(image.name), image)
  }

  /** The archive after a run of `zip.file(name, blob)` calls: a call under a
      name the archive already holds replaces that entry. */
  function ZipArchive(calls: seq<(string, ProcessedImage)>): map<string, ProcessedImage> {
    if calls == [] then map[]
    else ZipArchive(calls[..|calls| - 1])[calls[|calls| - 1].0 := calls[|calls| - 1].1]
  }

  /** The fetches of lines 283-289 settle in an order the browser picks:
      `order[j]` is the index of the result whose `zip.file` call runs j-th,
      and every result's call runs. */
  predicate IsCompletionOrder(order: seq<nat>, n: nat) {
    |order| == n && (forall j :: 0 <= j < n ==> order[j] < n) && (forall k :: 0 <= k < n ==> k in order)
  }

  /** The `zip.file` calls for the results, in completion order. */
  function ZipCalls(images: seq<ProcessedImage>, order: seq<nat>): (calls: seq<(string, ProcessedImage)>)
    requires forall j :: 0 <= j < |order| ==> order[j] < |images|
    ensures |calls| == |order|
  {
    seq(|order|, j requires 0 <= j < |order| => ZipEntry(images[order[j]]))
  }

  function ArchiveOf(images: seq<ProcessedImage>, order: seq<nat>): map<string, ProcessedImage>
    requires IsCompletionOrder(order, |images|)
  {
    ZipArchive(ZipCalls(images, order))
  }

  /** What `handleDownloadAll` saves for the processed images: nothing for
      none, one direct download for one; for more, one archive when JSZip is
      loaded and building it succeeds, and one download per image when JSZip
      is missing or the archive fails (the fallback of lines 308-320). */
  function DownloadsFor(images: seq<ProcessedImage>, jsZipLoaded: bool, zipBuilt: bool, order: seq<nat>): seq<Download>
    requires IsCompletionOrder(order, |images|)
  {
    if |images| == 0 then []
    else if |images| == 1 then [SaveAs(images[0])]
    else if jsZipLoaded && zipBuilt then [SaveZip(ArchiveOf(images, order), ZipName)]
    else seq(|images|, k requires 0 <= k < |images| => SaveAs(images[k]))
  }

  /** A name is in the archive iff some call used it, and it holds the
      negative of the last call under that name. */
  lemma {:induction false} ZipArchiveLastWriter(calls: seq<(string, ProcessedImage)>, n: string)
    ensures n in ZipArchive(calls) <==> exists j :: 0 <= j < |calls| && calls[j].0 == n
    ensures n in ZipArchive(calls) ==>
      exists j :: 0 <= j < |calls| && calls[j] == (n, ZipArchive(calls)[n])
        && forall i :: j < i < |calls| ==> calls[i].0 != n
  {
    if calls != [] {
      var init := calls[..|calls| - 1];
      var last := calls[|calls| - 1];
      ZipArchiveLastWriter(init, n);
      forall j | 0 <= j < |init| ensures init[j] == calls[j] { }
      if last.0 == n {
        assert ZipArchive(calls)[n] == last.1;
        assert calls[|calls| - 1] == (n, ZipArchive(calls)[n]);
      } else {
        assert n in ZipArchive(calls) <==> n in ZipArchive(init);
        if exists j :: 0 <= j < |calls| && calls[j].0 == n {
          var j :| 0 <= j < |calls| && calls[j].0 == n;
          assert j < |init| && init[j].0 == n;
        }
        if n in ZipArchive(init) {
          assert ZipArchive(calls)[n] == ZipArchive(init)[n];
          var j :| 0 <= j < |init| && init[j] == (n, ZipArchive(init)[n])
            && forall i :: j < i < |init| ==> init[i].0 != n;
          assert calls[j] == (n, ZipArchive(calls)[n]);
          forall i | j < i < |calls| ensures calls[i].0 != n {
            if i < |init| { assert init[i].0 != n; }
          }
        }
      }
    }
  }

  /** Distinct originals have distinct download names. */
  lemma DownloadNameInjective(a: string, b: string)
    ensures GetDownloadName(a) == GetDownloadName(b) ==> a == b
  {
    if GetDownloadName(a) == GetDownloadName(b) {
      DownloadNameKeepsExtension(a);
      DownloadNameKeepsExtension(b);
    }
  }

  /** No two processed images carry the same original name. */
  predicate DistinctNames(images: seq<ProcessedImage>) {
    forall i, j :: 0 <= i < j < |images| ==> images[i].name != images[j].name
  }

  /** The archive the JSZip path builds, whatever the completion order: its
      names are exactly the download names of the images, each entry holds a
      negative carrying that name, and when the original names are distinct
      each image sits under its own download name. */
  lemma ArchiveHoldsNegatives(images: seq<ProcessedImage>, order: seq<nat>)
    requires IsCompletionOrder(order, |images|)
    ensures forall n :: n in ArchiveOf(images, order) <==>
      exists k :: 0 <= k < |images| && GetDownloadName(images[k].name) == n
    ensures forall n :: n in ArchiveOf(images, order) ==>
      exists k :: 0 <= k < |images| && GetDownloadName(images[k].name) == n && ArchiveOf(images, order)[n] == images[k]
    ensures DistinctNames(images) ==> forall k :: 0 <= k < |images| ==>
      GetDownloadName(images[k].name) in ArchiveOf(images, order)
      && ArchiveOf(images, order)[GetDownloadName(images[k].name)] == images[k]
  {
    var calls := ZipCalls(images, order);
    var archive := ArchiveOf(images, order);
    forall n ensures n in archive <==> exists k :: 0 <= k < |images| && GetDownloadName(images[k].name) == n {
      ZipArchiveLastWriter(calls, n);
      if exists k :: 0 <= k < |images| && GetDownloadName(images[k].name) == n {
        var k :| 0 <= k < |images| && GetDownloadName(images[k].name) == n;
        assert k in order;
        var j :| 0 <= j < |order| && order[j] == k;
        assert calls[j].0 == n;
      }
      if n in archive {
        var j :| 0 <= j < |calls| && calls[j].0 == n;
        assert GetDownloadName(images[order[j]].name) == n;
      }
    }
    forall n | n in archive
      ensures exists k :: 0 <= k < |images| && GetDownloadName(images[k].name) == n && archive[n] == images[k]
    {
      ZipArchiveLastWriter(calls, n);
      var j :| 0 <= j < |calls| && calls[j] == (n, archive[n]) && forall i :: j < i < |calls| ==> calls[i].0 != n;
      assert archive[n] == images[order[j]] && GetDownloadName(images[order[j]].name) == n;
    }
    if DistinctNames(images) {
      forall k | 0 <= k < |images|
        ensures GetDownloadName(images[k].name) in archive && archive[GetDownloadName(images[k].name)] == images[k]
      {
        var n := GetDownloadName(images[k].name);
        assert k in order;
        var j0 :| 0 <= j0 < |order| && order[j0] == k;
        assert calls[j0].0 == n;
        ZipArchiveLastWriter(calls, n);
        var j :| 0 <= j < |calls| && calls[j] == (n, archive[n]) && forall i :: j < i < |calls| ==> calls[i].0 != n;
        DownloadNameInjective(images[order[j]].name, images[k].name);
        assert images[order[j]].name == images[k].name;
        assert order[j] == k;
      }
    }
  }

  /** Two negatives under one name leave a single entry: the one whose fetch
      settled last. */
  lemma SameNameKeepsLastCompleted(a: ProcessedImage, b: ProcessedImage)
    requires a.name == b.name
    ensures ArchiveOf([a, b], [0, 1]) == map[GetDownloadName(a.name) := b]
    ensures ArchiveOf([a, b], [1, 0]) == map[GetDownloadName(a.name) := a]
  {
    assert IsCompletionOrder([0, 1], 2) by { assert [0, 1][0] == 0 && [0, 1][1] == 1; }
    assert IsCompletionOrder([1, 0], 2) by { assert [1, 0][1] == 0 && [1, 0][0] == 1; }
    var n := GetDownloadName(a.name);
    var c01 := ZipCalls([a, b], [0, 1]);
    var c10 := ZipCalls([a, b], [1, 0]);
    assert c01 == [(n, a), (n, b)];
    assert c10 == [(n, b), (n, a)];
    assert c01[..1] == [(n, a)] && c01[..1][..0] == [];
    assert c10[..1] == [(n, b)] && c10[..1][..0] == [];
    assert ZipArchive([(n, a)]) == map[n := a];
    assert ZipArchive([(n, b)]) == map[n := b];
    assert ZipArchive(c01) == map[n := a][n := b];
    assert ZipArchive(c10) == map[n := b][n := a];
  }

  /** The per-file paths (one image, no JSZip, or a failed archive) save every
      processed image once, in list order, under its download name; the
      archive path saves one file named `negative_images.zip` holding every
      download name, and, when the original names are distinct, every image
      under its own name. */
  lemma DownloadAllDeliversEveryImage(images: seq<ProcessedImage>, jsZipLoaded: bool, zipBuilt: bool, order: seq<nat>)
    requires IsCompletionOrder(order, |images|)
    ensures var ds := DownloadsFor(images, jsZipLoaded, zipBuilt, order);
      (|images| <= 1 || !(jsZipLoaded && zipBuilt)) ==>
        |ds| == |images| && forall k :: 0 <= k < |images| ==> ds[k] == SaveFile(images[k], GetDownloadName(images[k].name))
    ensures var ds := DownloadsFor(images, jsZipLoaded, zipBuilt, order);
      (|images| > 1 && jsZipLoaded && zipBuilt) ==>
        |ds| == 1 && ds[0].SaveZip? && ds[0].filename == ZipName
        && (forall n :: n in ds[0].archive <==> exists k :: 0 <= k < |images| && GetDownloadName(images[k].name) == n)
        && (DistinctNames(images) ==> forall k :: 0 <= k < |images| ==>
              GetDownloadName(images[k].name) in ds[0].archive && ds[0].archive[GetDownloadName(images[k].name)] == images[k])
  {
    ArchiveHoldsNegatives(images, order);
  }

  /** `handleDownloadAll`: reads the processed-image list and hands the files to
      the browser. */
  method HandleDownloadAll(store: ImageStore, jsZipLoaded: bool, zipBuilt: bool, order: seq<nat>)
    returns (downloads: seq<Download>)
    requires IsCompletionOrder(order, |store.processedImages|)
    ensures downloads == DownloadsFor(store.processedImages, jsZipLoaded, zipBuilt, order)
  {
    var results := store.GetProcessedImages();
    if |results| == 0 {
      return [];
    }
    if |results| == 1 {
      return [SaveAs(results[0])];
    }
    if jsZipLoaded && zipBuilt {
      var archive := BuildArchive(results, order);
      return [SaveZip(archive, ZipName)];
    }
    downloads := SaveEach(results);
  }

  /** The `zip.file` calls as the fetches settle, each writing its negative
      under its download name. */
  method BuildArchive(results: seq<ProcessedImage>, order: seq<nat>) returns (archive: map<string, ProcessedImage>)
    requires IsCompletionOrder(order, |results|)
    ensures archive == ArchiveOf(results, order)
  {
    ghost var calls := ZipCalls(results, order);
    archive := map[];
    for j := 0 to |order|
      invariant archive == ZipArchive(calls[..j])
    {
      var image := results[order[j]];
      ghost var done := calls[..j + 1];
      assert done[..j] == calls[..j] && done[j] == calls[j];
      assert calls[j] == (GetDownloadName(image.name), image);
      assert ZipArchive(done) == ZipArchive(calls[..j])[calls[j].0 := calls[j].1];
      archive := archive[GetDownloadName(image.name) := image];
    }
    assert calls[..|order|] == calls;
  }

  /** One download link clicked per negative, in list order. */
  method SaveEach(results: seq<ProcessedImage>) returns (downloads: seq<Download>)
    ensures downloads == seq(|results|, j requires 0 <= j < |results| => SaveAs(results[j]))
  {
    downloads := [];
    for k := 0 to |results|
      invariant downloads == seq(k, j requires 0 <= j < k => SaveAs(results[j]))
    {
      downloads := downloads + [SaveAs(results[k])];
    }
  }

  /** Line 154: the "download all" button is displayed when the batch just
      processed has more than one result. */
  function DownloadAllShown(results: seq<ProcessedImage>): bool {
    |results| > 1
  }

  /** The button follows the latest batch, the handler the whole session:
      `processImages` appends each batch to the list (`earlier` holds the
      previous batches), so once the button shows, a click takes the
      many-image path over every image processed since the page loaded,
      earlier batches included. */
  lemma DownloadAllShownRule(earlier: seq<ProcessedImage>, results: seq<ProcessedImage>,
                             jsZipLoaded: bool, zipBuilt: bool, order: seq<nat>)
    requires IsCompletionOrder(order, |earlier + results|)
    ensures DownloadAllShown(results) ==> |earlier + results| > 1
    ensures var ds := DownloadsFor(earlier + results, jsZipLoaded, zipBuilt, order);
      DownloadAllShown(results) && !(jsZipLoaded && zipBuilt) ==>
        |ds| == |earlier| + |results| && forall k :: 0 <= k < |earlier| ==> ds[k] == SaveAs(earlier[k])
    ensures var ds := DownloadsFor(earlier + results, jsZipLoaded, zipBuilt, order);
      DownloadAllShown(results) && jsZipLoaded && zipBuilt ==>
        ds == [SaveZip(ArchiveOf(earlier + results, order), ZipName)]
        && forall k :: 0 <= k < |earlier| ==> GetDownloadName(earlier[k].name) in ds[0].archive
  {
    var all := earlier + results;
    if DownloadAllShown(results) && jsZipLoaded && zipBuilt {
      ArchiveHoldsNegatives(all, order);
      forall k | 0 <= k < |earlier| ensures GetDownloadName(earlier[k].name) in ArchiveOf(all, order) {
        assert all[k] == earlier[k];
      }
    }
    if DownloadAllShown(results) && !(jsZipLoaded && zipBuilt) {
      forall k | 0 <= k < |earlier| ensures all[k] == earlier[k] { }
    }
  }

  /** A one-image batch after a two-image batch hides the button, although
      the handler would save all three images. */
  lemma HiddenButtonOverSeveralImages(a: ProcessedImage, b: ProcessedImage, c: ProcessedImage)
    ensures !DownloadAllShown([c])
    ensures |DownloadsFor([a, b] + [c], false, false, [0, 1, 2])| == 3
  {
    assert IsCompletionOrder([0, 1, 2], 3) by {
      var o := [0, 1, 2];
      assert o[0] == 0 && o[1] == 1 && o[2] == 2;
    }
  }
}
