/** The media-host helpers (src/utils/cloudinary.js): the early returns on a
    falsy argument, and the public id that deleteFromCloudinary derives from
    a media url. The host's SDK calls are not modelled; their answers are
    parameters. */
module Cloudinary {
  import opened Js

  /** The media host's answer to an upload; `url` may be missing. */
  datatype UploadResponse = UploadResponse(url: Option<string>)

  /** uploadOnCloudinary: `null` (here `None`) without contacting the host
      when the local path is falsy; otherwise the host's answer, where
      `hostResult == None` stands for an upload that threw (caught, `null`). */
  function UploadOnCloudinary(localFilePath: Option<string>, hostResult: Option<UploadResponse>)
    : (r: Option<UploadResponse>)
    ensures !Given(localFilePath) ==> r == None
    ensures Given(localFilePath) ==> r == hostResult
  {
    if !Given(localFilePath) then None else hostResult
  }

  /** The last `/`-separated segment of a url: `url.split("/").slice(-1)[0]`,
      the part after the last `/`. */
  function LastSegment(url: string): (seg: string)
    ensures '/' !in seg
    ensures |seg| <= |url| && url[|url| - |seg|..] == seg
    ensures '/' !in url ==> seg == url
    ensures '/' in url ==> |seg| < |url| && url[|url| - |seg| - 1] == '/'
  {
    var parts := Split(url, '/');
    SplitLastPiece(url, '/');
    parts[|parts| - 1]
  }

  /** The public id of a media url: its last `/`-segment cut at the first
      `.`, i.e. `url.split("/").slice(-1)[0].split(".")[0]`. */
  function PublicId(url: string): (id: string)
    ensures '/' !in id && '.' !in id
    ensures id <= LastSegment(url)
    ensures '.' in LastSegment(url) ==> |id| < |LastSegment(url)| && LastSegment(url)[|id|] == '.'
    ensures '.' !in LastSegment(url) ==> id == LastSegment(url)
  {
    var seg := LastSegment(url);
    SplitFirstPiece(seg, '.');
    Split(seg, '.')[0]
  }

  /** A url with neither `/` nor `.` is its own public id. */
  lemma PublicIdOfPlainName(url: string)
    requires '/' !in url && '.' !in url
    ensures PublicId(url) == url
  {
    SplitFirstPiece(url, '.');
  }

  /** Extracting a public id from a public id changes nothing. */
  lemma PublicIdIdempotent(url: string)
    ensures PublicId(PublicId(url)) == PublicId(url)
  {
    PublicIdOfPlainName(PublicId(url));
  }

  /** The public id of a url `…/name.ext` is `name`, whatever the folders
      before it and the extension after it. */
  lemma PublicIdOfMediaUrl(folders: string, name: string, ext: string)
    requires '/' !in name && '.' !in name && '/' !in ext
    ensures PublicId(folders + "/" + name + "." + ext) == name
  {
    var file := name + "." + ext;
    var url := folders + "/" + file;
    assert url == folders + "/" + name + "." + ext;
    assert '/' !in file;
    LastSegmentAfterSlash(folders, file);
    SplitAfterPiece(name, ext, '.');
  }

  /** The last segment of `folders/file` is `file` when `file` has no `/`. */
  lemma LastSegmentAfterSlash(folders: string, file: string)
    requires '/' !in file
    ensures LastSegment(folders + "/" + file) == file
  {
    var url := folders + "/" + file;
    var seg := LastSegment(url);
    assert url[|url| - |file|..] == file;
    assert url[|url| - |file| - 1] == '/';
    if |seg| < |file| {
      assert false;
    } else if |seg| > |file| {
      assert false;
    }
  }

  /** The delete request deleteFromCloudinary sends to the host. */
  datatype DeleteRequest = DeleteResources(publicIds: seq<string>, deliveryType: string, resourceType: string)

  /** deleteFromCloudinary: no request at all (the function returns `null`)
      when the url is falsy; otherwise a request to delete the one public id
      derived from the url, as an uploaded resource of the given type. */
  function DeleteFromCloudinary(url: Option<string>, resourceType: string): (r: Option<DeleteRequest>)
    ensures r.None? <==> !Given(url)
    ensures r.Some? ==> r.value.publicIds == [PublicId(url.value)]
    ensures r.Some? ==> var id := r.value.publicIds[0];
      '/' !in id && '.' !in id && id <= LastSegment(url.value)
    ensures r.Some? ==> r.value.deliveryType == "upload" && r.value.resourceType == resourceType
  {
    if !Given(url) then None
    else Some(DeleteResources([PublicId(url.value)], "upload", resourceType))
  }
}
