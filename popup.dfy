/**
 * The popup's loader: the student list it keeps, the student and date window
 * it queries, and the submit flow that paginates the activities and builds
 * the archive from them.
 */
module Popup {
  import opened Wrappers
  import opened Api
  import opened Students
  import opened Pagination
  import opened Naming
  import opened Archive

  class Loader {
    var students: Option<seq<StudentOption>>
    var studentId: Option<string>
    var startAt: string
    var endAt: string

    /** The date window arrives already formatted; no student is known yet. */
    constructor (startAt: string, endAt: string)
      ensures students == None && studentId == None
      ensures this.startAt == startAt && this.endAt == endAt
    {
      students := None;
      studentId := None;
      this.startAt := startAt;
      this.endAt := endAt;
    }

    /** `getImages(page)` for every page, with this loader's student and dates. */
    function PageSource(api: ActivityQuery -> PageResponse): nat -> PageResponse
      reads this
    {
      var student, start, end := studentId, startAt, endAt;
      (page: nat) => api(ActivityQuery(student, page, start, end))
    }

    /**
     * Keeps the Active students and selects the first. The list is stored
     * before the selection, so with no Active student the list is still
     * replaced and the selection read fails.
     */
    method InitStudents(entries: seq<StudentEntry>) returns (outcome: Outcome<Failure>)
      modifies this
      ensures students == Some(ActiveStudents(entries))
      ensures startAt == old(startAt) && endAt == old(endAt)
      ensures outcome.Pass? <==> exists i :: 0 <= i < |entries| && IsActive(entries[i])
      ensures outcome.Pass? ==> ActiveStudents(entries) != [] && studentId == Some(ActiveStudents(entries)[0].id)
      ensures outcome.Fail? ==> outcome.error == NoActiveStudent && studentId == old(studentId)
    {
      var options := ActiveStudents(entries);
      students := Some(options);
      ActiveStudentsEmpty(entries);
      if options == [] {
        return Fail(NoActiveStudent);
      }
      studentId := Some(options[0].id);
      return Pass;
    }

    /**
     * Requests pages 0, 1, 2, ... until one is empty, concatenating them.
     * `requested` lists the page index of each request, in order.
     */
    method PaginateImages(api: ActivityQuery -> PageResponse)
      returns (images: Result<seq<Activity>, Failure>, requested: seq<nat>)
      requires Terminates(PageSource(api))
      ensures images == Paginated(PageSource(api))
      ensures |requested| == FirstEnd(PageSource(api)) + 1
      ensures forall k :: 0 <= k < |requested| ==> requested[k] == k
    {
      ghost var source := PageSource(api);
      ghost var last := FirstEnd(source);
      var page: nat := 0;
      var collected: seq<Activity> := [];
      requested := [];
      while true
        invariant page <= last
        invariant collected == Collected(source, page)
        invariant |requested| == page
        invariant forall k :: 0 <= k < page ==> requested[k] == k
        decreases last - page
      {
        var response := api(ActivityQuery(studentId, page, startAt, endAt));
        assert response == source(page);
        requested := requested + [page];
        match response
        case RequestFailed =>
          return Err(RequestError(page)), requested;
        case Activities(newImages) =>
          collected := collected + newImages;
          page := page + 1;
          if newImages == [] {
            return Ok(collected), requested;
          }
      }
    }

    /** Fetches each image in order and stores it under its entry name; the first failed fetch aborts. */
    method CreateZip(images: seq<ImageRef>, fetch: string -> Fetched)
      returns (archive: Result<map<string, Blob>, Failure>)
      ensures archive == Build(images, fetch)
    {
      var zip := new Zip();
      for i := 0 to |images|
        invariant Build(images[..i], fetch) == Ok(zip.files)
      {
        var img := images[i];
        assert images[..i + 1][..i] == images[..i];
        match fetch(img.url)
        case NetworkError =>
          BuildErrSticky(images, i + 1, fetch);
          return Err(FetchFailed(img.url));
        case Response(blob) =>
          var name := EntryName(img.name, blob.mimeType);
          zip.File(name, blob);
      }
      assert images[..|images|] == images;
      return Ok(zip.files);
    }

    /** Paginates the activities, names one archive entry per activity, and builds the archive. */
    method Submit(api: ActivityQuery -> PageResponse, fetch: string -> Fetched)
      returns (archive: Result<map<string, Blob>, Failure>)
      requires Terminates(PageSource(api))
      ensures Paginated(PageSource(api)).Err? ==> archive == Err(Paginated(PageSource(api)).error)
      ensures Paginated(PageSource(api)).Ok? ==>
        archive == Build(ImageRefs(Paginated(PageSource(api)).value), fetch)
    {
      var images, requested := PaginateImages(api);
      match images
      case Err(e) =>
        return Err(e);
      case Ok(activities) =>
        archive := CreateZip(ImageRefs(activities), fetch);
    }
  }
}
