/**
 * The shapes of the JSON records the popup reads from the photo service, the
 * payloads it downloads, and the ways a run can fail.
 */
module Api {
  import opened Wrappers

  newtype byte = b: int | 0 <= b < 0x100

  /** `media` of an activity record: only `image_url` is used. */
  datatype Media = Media(imageUrl: string)

  /** One record of the `activities` array of an activities page. */
  datatype Activity = Activity(media: Media, createdAt: string, objectId: string)

  /** The `student` object inside one entry of the `students` array. */
  datatype Student = Student(objectId: string, firstName: string, lastName: string, enrollmentStatus: string)

  /** One entry of the `students` array: `{ student: {...} }`. */
  datatype StudentEntry = StudentEntry(student: Student)

  /** The parameters of one activities request (the URL's query string). */
  datatype ActivityQuery = ActivityQuery(studentId: Option<string>, page: nat, startAt: string, endAt: string)

  /** What one activities request yields: the parsed `activities` array, or a rejected request. */
  datatype PageResponse = Activities(activities: seq<Activity>) | RequestFailed

  /** A downloaded image: its declared MIME type (`blob.type`) and its bytes. */
  datatype Blob = Blob(mimeType: string, bytes: seq<byte>)

  /** What `fetch(url)` followed by `response.blob()` yields: a blob, or a rejected promise. */
  datatype Fetched = Response(blob: Blob) | NetworkError

  /** The errors that abort a run. */
  datatype Failure =
    | RequestError(page: nat)   // the activities request for this page was rejected
    | FetchFailed(url: string)  // fetching this image was rejected
    | NoActiveStudent           // `this.students[0].id` read on an empty list (a TypeError)
}
