/** FilesController: upload pre-checks, the download's content type and
    file name, and who may list a course's files. */
module FilesController {
  import opened Outcomes
  import opened Ids
  import BlobService
  import CourseService

  const OctetStream: string := "application/octet-stream"

  /** ToLowerInvariant, on the ASCII letters. */
  function ToLower(s: string): (r: string)
    ensures |r| == |s|
    ensures forall i :: 0 <= i < |s| ==> r[i] == (if 'A' <= s[i] <= 'Z' then (s[i] as int + 32) as char else s[i])
  {
    if s == [] then []
    else [if 'A' <= s[0] <= 'Z' then (s[0] as int + 32) as char else s[0]] + ToLower(s[1..])
  }

  lemma {:induction false} ToLowerIdempotent(s: string)
    ensures ToLower(ToLower(s)) == ToLower(s)
  {
    if s != [] {
      ToLowerIdempotent(s[1..]);
    }
  }

  /** The switch in DownloadFile, on an already lower-cased extension. */
  function ContentTypeSwitch(ext: string): string {
    if ext == ".pdf" then "application/pdf"
    else if ext == ".jpg" || ext == ".jpeg" then "image/jpeg"
    else if ext == ".png" then "image/png"
    else if ext == ".gif" then "image/gif"
    else if ext == ".doc" || ext == ".docx" then "application/msword"
    else if ext == ".xls" || ext == ".xlsx" then "application/vnd.ms-excel"
    else if ext == ".ppt" || ext == ".pptx" then "application/vnd.ms-powerpoint"
    else if ext == ".mp4" then "video/mp4"
    else if ext == ".mp3" then "audio/mpeg"
    else OctetStream
  }

  /** The content type sent for a file with this extension. */
  function ContentTypeFor(extension: string): string {
    ContentTypeSwitch(ToLower(extension))
  }

  /** The extensions the download recognises, as a table. */
  const KnownContentTypes: map<string, string> := map[
    ".pdf" := "application/pdf",
    ".jpg" := "image/jpeg", ".jpeg" := "image/jpeg",
    ".png" := "image/png",
    ".gif" := "image/gif",
    ".doc" := "application/msword", ".docx" := "application/msword",
    ".xls" := "application/vnd.ms-excel", ".xlsx" := "application/vnd.ms-excel",
    ".ppt" := "application/vnd.ms-powerpoint", ".pptx" := "application/vnd.ms-powerpoint",
    ".mp4" := "video/mp4",
    ".mp3" := "audio/mpeg"]

  /** A listed extension gets its table entry. */
  lemma SwitchKnown(ext: string)
    requires ext in KnownContentTypes
    ensures ContentTypeSwitch(ext) == KnownContentTypes[ext]
  {
  }

  /** Every other extension, the empty one included, is octet-stream. */
  lemma SwitchUnknown(ext: string)
    requires ext !in KnownContentTypes
    ensures ContentTypeSwitch(ext) == OctetStream
  {
  }

  /** The content type is the table entry of the lower-cased extension, and
      application/octet-stream when there is none. */
  lemma ContentTypeMatchesTable(extension: string)
    ensures ContentTypeFor(extension) ==
              if ToLower(extension) in KnownContentTypes then KnownContentTypes[ToLower(extension)] else OctetStream
  {
    if ToLower(extension) in KnownContentTypes {
      SwitchKnown(ToLower(extension));
    } else {
      SwitchUnknown(ToLower(extension));
    }
  }

  /** Case does not matter: ".PDF" and ".pdf" give the same type. */
  lemma ContentTypeIgnoresCase(extension: string)
    ensures ContentTypeFor(extension) == ContentTypeFor(ToLower(extension))
  {
    ToLowerIdempotent(extension);
  }

  /** The last piece of path.Split('/'). */
  function LastField(path: string): (r: string)
    ensures '/' !in r
  {
    var fields := BlobService.Fields(path);
    fields[|fields| - 1]
  }

  /** The download name: a non-empty fileName query value verbatim, otherwise
      the last '/'-separated piece of the URL path. */
  function DownloadName(fileName: Option<string>, urlPath: string): (name: string)
    ensures fileName.Some? && fileName.value != "" ==> name == fileName.value
    ensures fileName.None? || fileName.value == "" ==> name == LastField(urlPath)
  {
    if fileName.Some? && fileName.value != "" then fileName.value else LastField(urlPath)
  }

  /** Without a fileName the download is named after the blob's own last
      part: for a URL path "/container/part/.../last", that is "last". */
  lemma DownloadNameFallback(container: string, blobParts: seq<string>)
    requires |blobParts| > 0
    requires forall i :: 0 <= i < |blobParts| ==> '/' !in blobParts[i]
    ensures DownloadName(None, "/" + container + "/" + BlobService.Join(blobParts)) == blobParts[|blobParts| - 1]
  {
    LastFieldOfJoin("/" + container, blobParts);
  }

  lemma LastFieldOfJoin(prefix: string, parts: seq<string>)
    requires |parts| > 0
    requires forall i :: 0 <= i < |parts| ==> '/' !in parts[i]
    ensures LastField(prefix + "/" + BlobService.Join(parts)) == parts[|parts| - 1]
  {
    var fields := BlobService.Fields(prefix) + parts;
    BlobService.FieldsAppend(prefix, BlobService.Join(parts));
    BlobService.FieldsOfJoin(parts);
    assert fields[|fields| - 1] == parts[|parts| - 1];
  }

  datatype DownloadResponse =
    | BadRequest          // "File URL is required"
    | NotFound            // FileNotFoundException from the blob service
    | ServerError         // any other exception: an unparsable URL or a malformed blob path
    | FileResult(address: BlobService.BlobAddress, contentType: string, downloadName: string)

  /** DownloadFile. urlPath is the URL's absolute path as System.Uri gives it
      (None when the URL does not parse) and extension is what
      Path.GetExtension gives for the URL. */
  function DownloadFile(fileUrl: string, urlPath: Option<string>, extension: string, fileName: Option<string>,
                        store: set<BlobService.BlobAddress>): (r: DownloadResponse)
    ensures fileUrl == "" <==> r == BadRequest
    ensures fileUrl != "" && urlPath.None? ==> r == ServerError
    ensures r.FileResult? ==> && urlPath.Some?
                              && BlobService.DownloadFile(urlPath.value, store) == Ok(r.address)
                              && r.address in store
                              && r.contentType == ContentTypeFor(extension)
                              && r.downloadName == DownloadName(fileName, urlPath.value)
    ensures r == NotFound <==> && fileUrl != "" && urlPath.Some?
                               && BlobService.DownloadFile(urlPath.value, store) == Err(BlobService.BlobNotFound)
    ensures fileUrl != "" && urlPath.Some? && BlobService.ContainerAndBlob(urlPath.value).Err? ==> r == ServerError
    ensures fileUrl != "" && urlPath.Some? && BlobService.DownloadFile(urlPath.value, store).Ok? ==> r.FileResult?
  {
    if fileUrl == "" then BadRequest
    else if urlPath.None? then ServerError
    else
      match BlobService.DownloadFile(urlPath.value, store)
      case Err(BlobNotFound) => NotFound
      case Err(InvalidBlobUrl) => ServerError
      case Ok(address) => FileResult(address, ContentTypeFor(extension), DownloadName(fileName, urlPath.value))
  }

  // ---------------------------------------------------------------------------
  // Upload

  const MaterialsContainer: string := "course-materials"

  /** The posted file: its name, and that name's base and extension as
      Path.GetFileNameWithoutExtension and Path.GetExtension give them. */
  datatype UploadedFile = UploadedFile(fileName: string, baseName: string, extension: string, length: nat)

  datatype UploadResponse =
    | UploadBadRequest    // "No file provided"
    | UploadUnauthorized  // no user id claim in the token
    | Uploaded(address: BlobService.BlobAddress, fileName: string, originalName: string)

  /** UploadFile. The file is checked before the token. The blob is stored in
      "course-materials" under the name the blob service generates from
      blobGuid; the fileName reported back is built from a second GUID,
      replyGuid, and names no blob. */
  function UploadFile(file: Option<UploadedFile>, userClaim: Option<Guid>,
                      blobGuid: string, replyGuid: string): (r: UploadResponse)
    ensures file.None? || file.value.length == 0 <==> r == UploadBadRequest
    ensures r == UploadUnauthorized <==> file.Some? && file.value.length > 0 && userClaim.None?
    ensures r.Uploaded? ==> && r.address.container == MaterialsContainer
                            && r.address.blob == BlobService.UploadBlobName(file.value.baseName, blobGuid, file.value.extension)
                            && r.originalName == file.value.fileName
                            && r.fileName == replyGuid + file.value.extension
  {
    if file.None? || file.value.length == 0 then UploadBadRequest
    else if userClaim.None? then UploadUnauthorized
    else Uploaded(BlobService.BlobAddress(MaterialsContainer,
                                          BlobService.UploadBlobName(file.value.baseName, blobGuid, file.value.extension)),
                  replyGuid + file.value.extension, file.value.fileName)
  }

  // ---------------------------------------------------------------------------
  // Listing a course's files

  datatype Access = Allowed | Forbidden(reason: string)

  /** Only the course owner or an enrolled student: an Instructor must own
      the course and a Student must be enrolled; any other role, or none,
      passes. */
  function CourseFilesAccess(role: Option<string>, userId: Guid, instructorId: Guid, isEnrolled: bool): (a: Access)
    ensures a == Allowed <==>
              !(role == Some("Instructor") && instructorId != userId) && !(role == Some("Student") && !isEnrolled)
  {
    if role == Some("Instructor") && instructorId != userId then
      Forbidden("You don't have permission to access files for this course")
    else if role == Some("Student") && !isEnrolled then
      Forbidden("You are not enrolled in this course")
    else Allowed
  }

  datatype CourseMaterial = CourseMaterial(id: Guid, courseId: Guid, title: string, kind: string, url: string, uploadedAt: Timestamp)

  /** The materials of one course, in table order. */
  function MaterialsOf(materials: seq<CourseMaterial>, courseId: Guid): (r: seq<CourseMaterial>)
    ensures forall m :: m in r <==> m in materials && m.courseId == courseId
    ensures |r| <= |materials|
  {
    if materials == [] then []
    else
      var init, last := materials[..|materials| - 1], materials[|materials| - 1];
      assert materials == init + [last];
      MaterialsOf(init, courseId) + if last.courseId == courseId then [last] else []
  }

  datatype FilesResponse =
    | CourseNotFound
    | FilesUnauthorized
    | FilesForbidden(reason: string)
    | Materials(items: seq<CourseMaterial>)

  /** GetCourseFiles: the course lookup, then the token, then the access rule
      (enrollment is looked up for students only), then the course's
      materials. */
  function GetCourseFiles(courseId: Guid, course: Option<CourseService.Course>, userClaim: Option<Guid>,
                          role: Option<string>, enrollments: seq<CourseService.Enrollment>,
                          materials: seq<CourseMaterial>): (r: FilesResponse)
    ensures course.None? <==> r == CourseNotFound
    ensures r == FilesUnauthorized <==> course.Some? && userClaim.None?
    ensures r.Materials? ==> forall m :: m in r.items <==> m in materials && m.courseId == courseId
    ensures course.Some? && userClaim.Some? && role == Some("Student") ==>
              (r.Materials? <==> CourseService.AnyEnrollment(enrollments, userClaim.value, courseId))
    ensures course.Some? && userClaim.Some? && role == Some("Instructor") ==>
              (r.Materials? <==> course.value.instructorId == userClaim.value)
    ensures course.Some? && userClaim.Some? && role != Some("Student") && role != Some("Instructor") ==> r.Materials?
  {
    if course.None? then CourseNotFound
    else if userClaim.None? then FilesUnauthorized
    else
      var isEnrolled := role == Some("Student") && CourseService.AnyEnrollment(enrollments, userClaim.value, courseId);
      match CourseFilesAccess(role, userClaim.value, course.value.instructorId, isEnrolled)
      case Forbidden(reason) => FilesForbidden(reason)
      case Allowed => Materials(MaterialsOf(materials, courseId))
  }
}
