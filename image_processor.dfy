/**
 * negatives/js/imageProcessor.js: the pixel inversion of `createNegative`,
 * the module-level `processedImages` list, and the filtering and completion
 * counting of `processImages`. Decoding a file into an RGBA buffer is done
 * by the browser; here a file carries the buffer the browser yields for it,
 * or None when the image fails to load.
 */
module ImageProcessor {
  import opened Wrappers

  /** An element of the `Uint8ClampedArray` of `ImageData`. */
  type byte = x: int | 0 <= x < 256

  /** Positions 3, 7, 11, ... hold alpha; the others red, green and blue. */
  predicate IsAlpha(i: nat) {
    i % 4 == 3
  }

  /** The buffer with red, green and blue of every pixel replaced by 255 - v
      and alpha left alone. (A trailing partial pixel is treated the same way:
      writes past the end of a typed array are ignored.) */
  function Negative(data: seq<byte>): seq<byte> {
    seq(|data|, i requires 0 <= i < |data| => if IsAlpha(i) then data[i] else 255 - data[i])
  }

  /** Each colour byte becomes its complement, each alpha byte is unchanged,
      and so is the length. */
  lemma NegativeAt(data: seq<byte>, i: nat)
    requires i < |data|
    ensures |Negative(data)| == |data|
    ensures !IsAlpha(i) ==> Negative(data)[i] == 255 - data[i]
    ensures IsAlpha(i) ==> Negative(data)[i] == data[i]
  {
  }

  /** Inverting twice restores the original buffer. */
  lemma NegativeInvolutive(data: seq<byte>)
    ensures Negative(Negative(data)) == data
  {
    var once := Negative(data);
    forall i | 0 <= i < |data| ensures Negative(once)[i] == data[i] {
      NegativeAt(data, i);
      NegativeAt(once, i);
    }
  }

  /** An opaque black pixel becomes opaque white and back. */
  lemma NegativeOfBlackPixel()
    ensures Negative([0, 0, 0, 255]) == [255, 255, 255, 255]
    ensures Negative([255, 255, 255, 255]) == [0, 0, 0, 255]
  {
  }

  /** The loop at lines 38-44: steps four bytes at a time and rewrites the
      first three of each group in place. */
  method InvertPixels(data: array<byte>)
    modifies data
    ensures data[..] == Negative(old(data[..]))
  {
    var i := 0;
    while i < data.Length
      invariant 0 <= i && i % 4 == 0
      invariant i <= data.Length + 3
      invariant forall k :: 0 <= k < i && k < data.Length ==> data[k] == Negative(old(data[..]))[k]
      invariant forall k :: i <= k < data.Length ==> data[k] == old(data[k])
    {
      data[i] := 255 - data[i];
      if i + 1 < data.Length {
        data[i + 1] := 255 - data[i + 1];
      }
      if i + 2 < data.Length {
        data[i + 2] := 255 - data[i + 2];
      }
      i := i + 4;
    }
  }

  /** A selected file. `pixels` is the RGBA buffer `getImageData` returns for
      it, or None when the image element reports an error. */
  datatype ImageFile = ImageFile(name: string, mime: string, size: nat, pixels: Option<seq<byte>>)

  /** The record `createNegative` stores and resolves with. The encoded blob
      and the object URLs are represented by the inverted buffer. */
  datatype ProcessedImage = ProcessedImage(id: string, name: string, mime: string, originalSize: nat, negative: seq<byte>)

  const LoadErrorMessage := "Failed to load image"
  const NoValidImagesMessage := "No valid image files were selected"

  /** `file.type.match(/^image\//)`, kept local so that the image module does
      not depend on the blogroll module's prefix test. */
  predicate IsImage(file: ImageFile) {
    |file.mime| >= 6 && file.mime[..6] == "image/"
  }

  /** `Array.from(fileList).filter(...)` at lines 88-90. */
  function ImageFiles(files: seq<ImageFile>): (r: seq<ImageFile>)
    ensures |r| <= |files|
    ensures forall k :: 0 <= k < |r| ==> IsImage(r[k])
  {
    if files == [] then []
    else (if IsImage(files[0]) then [files[0]] else []) + ImageFiles(files[1..])
  }

  /** The filter keeps every image file as often as it occurs and nothing else. */
  lemma {:induction false} ImageFilesExact(files: seq<ImageFile>, f: ImageFile)
    ensures multiset(ImageFiles(files))[f] == if IsImage(f) then multiset(files)[f] else 0
  {
    if files != [] {
      ImageFilesExact(files[1..], f);
      assert files == [files[0]] + files[1..];
    }
  }

  /** Filtering distributes over concatenation, so the kept files stay in
      their selection order. */
  lemma {:induction false} ImageFilesAppend(a: seq<ImageFile>, b: seq<ImageFile>)
    ensures ImageFiles(a + b) == ImageFiles(a) + ImageFiles(b)
  {
    if a == [] {
      assert a + b == b;
    } else {
      var head := if IsImage(a[0]) then [a[0]] else [];
      assert (a + b)[0] == a[0];
      assert (a + b)[1..] == a[1..] + b;
      assert ImageFiles(a + b) == head + ImageFiles(a[1..] + b);
      ImageFilesAppend(a[1..], b);
      assert ImageFiles(a) == head + ImageFiles(a[1..]);
    }
  }

  /** What a successful `createNegative` of a file yields under a given id. */
  function NegativeOf(file: ImageFile, id: string): ProcessedImage
    requires file.pixels.Some?
  {
    ProcessedImage(id, file.name, file.mime, file.size, Negative(file.pixels.value))
  }

  /** The records `processImages` collects: one per file that loads, in
      processing order; `freshId(k)` is the id generated for the k-th file. */
  function Successes(files: seq<ImageFile>, freshId: nat -> string, from: nat): (r: seq<ProcessedImage>)
    requires from <= |files|
    ensures |r| <= |files| - from
    decreases |files| - from
  {
    if from == |files| then []
    else
      (if files[from].pixels.Some? then [NegativeOf(files[from], freshId(from))] else [])
      + Successes(files, freshId, from + 1)
  }

  lemma {:induction false} SuccessesSplit(files: seq<ImageFile>, freshId: nat -> string, from: nat, k: nat)
    requires from <= k < |files|
    ensures Successes(files, freshId, from)
      == Successes(files[..k], freshId, from)
         + (if files[k].pixels.Some? then [NegativeOf(files[k], freshId(k))] else [])
         + Successes(files, freshId, k + 1)
    decreases k - from
  {
    if from < k {
      SuccessesSplit(files, freshId, from + 1, k);
      assert files[..k][from] == files[from];
    }
  }

  /** The module-level state of the image processor. */
  class ImageStore {
    var processedImages: seq<ProcessedImage>

    constructor ()
      ensures processedImages == []
    {
      processedImages := [];
    }

    /** `createNegative`: a file that fails to load rejects with "Failed to
        load image" and stores nothing; otherwise its buffer is inverted and
        exactly one record is appended to the list and returned. */
    method CreateNegative(file: ImageFile, id: string) returns (r: Result<ProcessedImage, string>)
      modifies this
      ensures r.Ok? <==> file.pixels.Some?
      ensures r.Err? ==> r.error == LoadErrorMessage && processedImages == old(processedImages)
      ensures r.Ok? ==> r.value == NegativeOf(file, id) && processedImages == old(processedImages) + [r.value]
    {
      if file.pixels.None? {
        return Err(LoadErrorMessage);
      }
      var pixels := file.pixels.value;
      var data := new byte[|pixels|](k requires 0 <= k < |pixels| => pixels[k]);
      assert data[..] == pixels;
      InvertPixels(data);
      var result := ProcessedImage(id, file.name, file.mime, file.size, data[..]);
      processedImages := processedImages + [result];
      return Ok(result);
    }

    /** `getProcessedImages`: a copy of the list; the list itself is untouched. */
    method GetProcessedImages() returns (copy: seq<ProcessedImage>)
      ensures copy == processedImages
    {
      copy := processedImages;
    }

    /** `clearProcessedImages`: afterwards the list is empty. */
    method ClearProcessedImages()
      modifies this
      ensures processedImages == []
    {
      processedImages := [];
    }

    /** `processImages`, with the per-file promises settled one after another
        in file order. It rejects before doing anything when no file is an
        image. Otherwise `completed` rises once per image file, on success and
        on failure alike (`progress` lists the values reported), the call
        resolves once, when `completed` reaches the number of image files, and
        it resolves with the successful records only, which are also the
        records appended to the list. */
    method ProcessImages(fileList: seq<ImageFile>, freshId: nat -> string)
      returns (r: Result<seq<ProcessedImage>, string>, progress: seq<nat>)
      modifies this
      ensures var files := ImageFiles(fileList);
        && (r.Err? <==> files == [])
        && (r.Err? ==> r.error == NoValidImagesMessage && progress == []
                       && processedImages == old(processedImages))
        && (r.Ok? ==> r.value == Successes(files, freshId, 0)
                      && processedImages == old(processedImages) + r.value
                      && |progress| == |files|
                      && forall k :: 0 <= k < |progress| ==> progress[k] == k + 1)
    {
      var files := ImageFiles(fileList);
      if |files| == 0 {
        return Err(NoValidImagesMessage), [];
      }
      var results: seq<ProcessedImage> := [];
      var completed := 0;
      progress := [];
      for index := 0 to |files|
        invariant completed == index
        invariant |progress| == index && forall k :: 0 <= k < index ==> progress[k] == k + 1
        invariant results == Successes(files[..index], freshId, 0)
        invariant processedImages == old(processedImages) + results
      {
        var outcome := CreateNegative(files[index], freshId(index));
        if outcome.Ok? {
          results := results + [outcome.value];
        }
        completed := completed + 1;
        progress := progress + [completed];
        SuccessesSplit(files[..index + 1], freshId, 0, index);
        assert files[..index + 1][..index] == files[..index];
      }
      // every settled promise has been counted: `completed === files.length`
      assert completed == |files| && files[..|files|] == files;
      r := Ok(results);
    }
  }
}
