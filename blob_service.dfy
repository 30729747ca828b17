/** BlobService: how a blob URL's path is split into a container and a blob
    name (DownloadFileAsync and DeleteFileAsync), and how an upload is named
    (UploadFileAsync). */
module BlobService {
  import opened Outcomes

  /** path.Split('/'): the text between separators, empty pieces included. */
  function Fields(s: string): (r: seq<string>)
    ensures |r| > 0
    ensures forall i :: 0 <= i < |r| ==> '/' !in r[i]
  {
    if s == [] then [""]
    else
      var rest := Fields(s[1..]);
      if s[0] == '/' then [""] + rest else [[s[0]] + rest[0]] + rest[1..]
  }

  /** StringSplitOptions.RemoveEmptyEntries. */
  function NonEmpty(fs: seq<string>): (r: seq<string>)
    ensures forall i :: 0 <= i < |r| ==> r[i] != "" && r[i] in fs
    ensures |r| <= |fs|
  {
    if fs == [] then []
    else if fs[0] == "" then NonEmpty(fs[1..])
    else [fs[0]] + NonEmpty(fs[1..])
  }

  /** path.Split('/', StringSplitOptions.RemoveEmptyEntries). */
  function Segments(path: string): (r: seq<string>)
    ensures forall i :: 0 <= i < |r| ==> r[i] != "" && '/' !in r[i]
  {
    NonEmpty(Fields(path))
  }

  /** string.Join("/", segments). */
  function Join(segments: seq<string>): string {
    if |segments| == 0 then ""
    else if |segments| == 1 then segments[0]
    else segments[0] + "/" + Join(segments[1..])
  }

  datatype BlobAddress = BlobAddress(container: string, blob: string)

  datatype BlobError =
    | InvalidBlobUrl          // ArgumentException "Invalid blob URL format"
    | BlobNotFound            // FileNotFoundException from DownloadFileAsync

  /** The container is the first non-empty segment and the blob name the rest
      joined by '/'; fewer than two non-empty segments is an error. */
  function ContainerAndBlob(path: string): (r: Outcome<BlobAddress, BlobError>)
    ensures r.Err? <==> |Segments(path)| < 2
    ensures r.Err? ==> r.error == InvalidBlobUrl
    ensures r.Ok? ==> && r.value.container != "" && '/' !in r.value.container
                      && r.value.container == Segments(path)[0]
                      && Fields(r.value.blob) == Segments(path)[1..]
  {
    var segments := Segments(path);
    if |segments| < 2 then Err(InvalidBlobUrl)
    else
      FieldsOfJoin(segments[1..]);
      Ok(BlobAddress(segments[0], Join(segments[1..])))
  }

  // ---------------------------------------------------------------------------
  // Splitting and joining

  /** Splitting distributes over a separator. */
  lemma {:induction false} FieldsAppend(x: string, y: string)
    ensures Fields(x + "/" + y) == Fields(x) + Fields(y)
  {
    if x == [] {
      assert x + "/" + y == "/" + y;
      assert ("/" + y)[1..] == y;
    } else {
      assert (x + "/" + y)[1..] == x[1..] + "/" + y;
      FieldsAppend(x[1..], y);
    }
  }

  /** A text without '/' is a single field. */
  lemma {:induction false} FieldsOfSlashFree(s: string)
    requires '/' !in s
    ensures Fields(s) == [s]
  {
    if s != [] {
      FieldsOfSlashFree(s[1..]);
      assert [s[0]] + s[1..] == s;
    }
  }

  /** Joining slash-free segments and splitting again gives them back. */
  lemma {:induction false} FieldsOfJoin(segments: seq<string>)
    requires |segments| > 0
    requires forall i :: 0 <= i < |segments| ==> '/' !in segments[i]
    ensures Fields(Join(segments)) == segments
  {
    FieldsOfSlashFree(segments[0]);
    if |segments| > 1 {
      FieldsOfJoin(segments[1..]);
      FieldsAppend(segments[0], Join(segments[1..]));
      assert [segments[0]] + segments[1..] == segments;
    }
  }

  lemma {:induction false} NonEmptyKeeps(fs: seq<string>)
    requires forall i :: 0 <= i < |fs| ==> fs[i] != ""
    ensures NonEmpty(fs) == fs
  {
    if fs != [] {
      NonEmptyKeeps(fs[1..]);
      assert [fs[0]] + fs[1..] == fs;
    }
  }

  /** The documented shape "/containername/blobname" splits as written, for
      any blob name whose '/'-separated parts are non-empty. */
  lemma CanonicalPath(container: string, blobParts: seq<string>)
    requires container != "" && '/' !in container
    requires |blobParts| > 0
    requires forall i :: 0 <= i < |blobParts| ==> blobParts[i] != "" && '/' !in blobParts[i]
    ensures ContainerAndBlob("/" + container + "/" + Join(blobParts)) == Ok(BlobAddress(container, Join(blobParts)))
  {
    var segments := [container] + blobParts;
    CanonicalSegments(container, blobParts);
    assert segments[0] == container && segments[1..] == blobParts;
  }

  lemma CanonicalSegments(container: string, blobParts: seq<string>)
    requires container != "" && '/' !in container
    requires |blobParts| > 0
    requires forall i :: 0 <= i < |blobParts| ==> blobParts[i] != "" && '/' !in blobParts[i]
    ensures Segments("/" + container + "/" + Join(blobParts)) == [container] + blobParts
  {
    var fields := [""] + ([container] + blobParts);
    CanonicalFields(container, blobParts);
    assert fields[0] == "" && fields[1..] == [container] + blobParts;
    NonEmptyKeeps([container] + blobParts);
  }

  lemma CanonicalFields(container: string, blobParts: seq<string>)
    requires '/' !in container
    requires |blobParts| > 0
    requires forall i :: 0 <= i < |blobParts| ==> '/' !in blobParts[i]
    ensures Fields("/" + container + "/" + Join(blobParts)) == [""] + ([container] + blobParts)
  {
    var blob := Join(blobParts);
    var rest := container + "/" + blob;
    assert "/" + container + "/" + blob == [] + "/" + rest;
    FieldsAppend([], rest);
    FieldsAppend(container, blob);
    FieldsOfSlashFree(container);
    FieldsOfJoin(blobParts);
  }

  /** Extra slashes collapse: empty segments anywhere in the path change
      neither the container nor the blob name. */
  lemma CollapsesEmptySegments(path: string)
    ensures ContainerAndBlob("/" + path) == ContainerAndBlob(path)
    ensures ContainerAndBlob(path + "/") == ContainerAndBlob(path)
  {
    FieldsAppend([], path);
    assert [] + "/" + path == "/" + path;
    FieldsAppend(path, []);
    assert path + "/" + [] == path + "/";
    NonEmptyAppend(Fields(path), [""]);
    NonEmptyAppend([""], Fields(path));
    assert NonEmpty([""]) == [];
    assert NonEmpty(Fields(path)) + [] == NonEmpty(Fields(path));
  }

  /** A doubled slash inside the path collapses to one. */
  lemma CollapsesDoubledSlash(x: string, y: string)
    ensures ContainerAndBlob(x + "//" + y) == ContainerAndBlob(x + "/" + y)
  {
    DoubledSlashSegments(x, y);
  }

  lemma DoubledSlashSegments(x: string, y: string)
    ensures Segments(x + "//" + y) == Segments(x + "/" + y)
  {
    DoubledSlashFields(x, y);
    NonEmptySkipsEmpty(Fields(x), Fields(y));
  }

  lemma NonEmptySkipsEmpty(xs: seq<string>, ys: seq<string>)
    ensures NonEmpty(xs + [""] + ys) == NonEmpty(xs + ys)
  {
    NonEmptyAppend(xs + [""], ys);
    NonEmptyAppend(xs, [""]);
    NonEmptyAppend(xs, ys);
    assert NonEmpty([""]) == [];
    assert NonEmpty(xs) + [] == NonEmpty(xs);
  }

  lemma DoubledSlashFields(x: string, y: string)
    ensures Fields(x + "//" + y) == Fields(x) + [""] + Fields(y)
    ensures Fields(x + "/" + y) == Fields(x) + Fields(y)
  {
    assert x + "//" + y == (x + "/" + []) + "/" + y;
    FieldsAppend(x + "/" + [], y);
    FieldsAppend(x, []);
    FieldsAppend(x, y);
  }

  lemma {:induction false} NonEmptyAppend(xs: seq<string>, ys: seq<string>)
    ensures NonEmpty(xs + ys) == NonEmpty(xs) + NonEmpty(ys)
  {
    if xs == [] {
      assert xs + ys == ys;
    } else {
      assert (xs + ys)[0] == xs[0];
      assert (xs + ys)[1..] == xs[1..] + ys;
      NonEmptyAppend(xs[1..], ys);
    }
  }

  // ---------------------------------------------------------------------------
  // The service operations, over a store of existing blobs

  /** DownloadFileAsync up to the download itself: the blob it would read. */
  function DownloadFile(path: string, store: set<BlobAddress>): (r: Outcome<BlobAddress, BlobError>)
    ensures r.Ok? ==> r.value in store && r == ContainerAndBlob(path)
    ensures r.Ok? <==> ContainerAndBlob(path).Ok? && ContainerAndBlob(path).value in store
    ensures r == Err(BlobNotFound) <==> ContainerAndBlob(path).Ok? && ContainerAndBlob(path).value !in store
  {
    match ContainerAndBlob(path)
    case Err(e) => Err(e)
    case Ok(address) => if address in store then Ok(address) else Err(BlobNotFound)
  }

  /** DeleteFileAsync: DeleteIfExists on the same address; true when a blob
      was removed. */
  function DeleteFile(path: string, store: set<BlobAddress>): (r: Outcome<(bool, set<BlobAddress>), BlobError>)
    ensures r.Err? <==> ContainerAndBlob(path).Err?
    ensures r.Ok? ==> var address := ContainerAndBlob(path).value;
                      && r.value.1 == store - {address}
                      && (r.value.0 <==> address in store)
  {
    match ContainerAndBlob(path)
    case Err(e) => Err(e)
    case Ok(address) => Ok((address in store, store - {address}))
  }

  /** Download and delete address the same blob for the same URL: once a
      download succeeds, deleting removes exactly what was downloaded. */
  lemma DownloadThenDelete(path: string, store: set<BlobAddress>)
    requires DownloadFile(path, store).Ok?
    ensures DeleteFile(path, store) == Ok((true, store - {DownloadFile(path, store).value}))
  {
  }

  // ---------------------------------------------------------------------------
  // Upload naming

  /** "{name without extension}-{Guid.NewGuid()}{extension}". */
  function UploadBlobName(baseName: string, guidText: string, extension: string): (name: string)
    ensures |name| == |baseName| + 1 + |guidText| + |extension|
    ensures name[..|baseName|] == baseName && name[|baseName|] == '-'
    ensures name[|baseName| + 1..|baseName| + 1 + |guidText|] == guidText
    ensures name[|name| - |extension|..] == extension
  {
    baseName + "-" + guidText + extension
  }

  /** For one original file, distinct GUIDs (all of the same printed length)
      give distinct blob names. */
  lemma UploadNameDeterminesGuid(baseName: string, g1: string, g2: string, extension: string)
    requires |g1| == |g2|
    requires UploadBlobName(baseName, g1, extension) == UploadBlobName(baseName, g2, extension)
    ensures g1 == g2
  {
    var n1 := UploadBlobName(baseName, g1, extension);
    var n2 := UploadBlobName(baseName, g2, extension);
    assert n1[|baseName| + 1..|baseName| + 1 + |g1|] == g1;
    assert n2[|baseName| + 1..|baseName| + 1 + |g2|] == g2;
  }
}
