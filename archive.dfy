/**
 * The archive builder's specification. The archive is the map from entry
 * name to payload that `zip.file(name, blob)` fills; a second entry under a
 * name already present replaces the first (a modelling choice: the
 * compression library's own handling of duplicates is not part of this model).
 */
module Archive {
  import opened Wrappers
  import opened Api
  import opened Naming

  /** The in-memory archive: entries keyed by name. */
  class Zip {
    var files: map<string, Blob>

    constructor ()
      ensures files == map[]
    {
      files := map[];
    }

    /** `zip.file(name, blob)`: store `blob` under `name`, replacing any entry of that name. */
    method File(name: string, blob: Blob)
      modifies this
      ensures files == old(files)[name := blob]
    {
      files := files[name := blob];
    }
  }

  /** The name the entry for `img` is stored under, once its payload has been fetched. */
  function EntryOf(img: ImageRef, fetch: string -> Fetched): string
    requires fetch(img.url).Response?
  {
    EntryName(img.name, fetch(img.url).blob.mimeType)
  }

  predicate AllFetched(images: seq<ImageRef>, fetch: string -> Fetched) {
    forall k :: 0 <= k < |images| ==> fetch(images[k].url).Response?
  }

  /**
   * The archive after the entries of `images` are inserted one at a time in
   * order, or the error of the first fetch that fails (nothing after it is fetched).
   */
  function Build(images: seq<ImageRef>, fetch: string -> Fetched): (r: Result<map<string, Blob>, Failure>)
    ensures r.Ok? ==> |r.value| <= |images|
    decreases |images|
  {
    if images == [] then Ok(map[])
    else
      var img := images[|images| - 1];
      match Build(images[..|images| - 1], fetch)
      case Err(e) => Err(e)
      case Ok(m) =>
        match fetch(img.url)
        case NetworkError => Err(FetchFailed(img.url))
        case Response(blob) => Ok(m[EntryName(img.name, blob.mimeType) := blob])
  }

  /** Once a prefix fails, the whole build fails with the same error. */
  lemma {:induction false} BuildErrSticky(images: seq<ImageRef>, i: nat, fetch: string -> Fetched)
    requires i <= |images| && Build(images[..i], fetch).Err?
    ensures Build(images, fetch) == Build(images[..i], fetch)
    decreases |images| - i
  {
    if i == |images| {
      assert images[..i] == images;
    } else {
      var n := |images|;
      assert images[..n][..n - 1] == images[..n - 1];
      if i < n - 1 {
        assert images[..n - 1][..i] == images[..i];
        BuildErrSticky(images[..n - 1], i, fetch);
      } else {
        assert images[..n - 1] == images[..i];
      }
    }
  }

  /** The build succeeds exactly when every payload is fetched; colliding names never fail it. */
  lemma {:induction false} BuildOk(images: seq<ImageRef>, fetch: string -> Fetched)
    ensures Build(images, fetch).Ok? <==> AllFetched(images, fetch)
    decreases |images|
  {
    if images != [] {
      var n := |images|;
      BuildOk(images[..n - 1], fetch);
      AllFetchedLast(images, fetch);
      assert Build(images, fetch).Ok? <==>
        Build(images[..n - 1], fetch).Ok? && fetch(images[n - 1].url).Response?;
    }
  }

  /** Every payload of a non-empty list is fetched iff those of all but the last are, and the last one is. */
  lemma AllFetchedLast(images: seq<ImageRef>, fetch: string -> Fetched)
    requires images != []
    ensures AllFetched(images, fetch) <==>
      AllFetched(images[..|images| - 1], fetch) && fetch(images[|images| - 1].url).Response?
  {
    assert forall k :: 0 <= k < |images| - 1 ==> images[..|images| - 1][k] == images[k];
  }

  /** A failed build reports the url of the first image whose fetch failed. */
  lemma {:induction false} BuildFirstFailure(images: seq<ImageRef>, fetch: string -> Fetched)
    requires Build(images, fetch).Err?
    ensures exists k ::
      && 0 <= k < |images|
      && Build(images, fetch).error == FetchFailed(images[k].url)
      && fetch(images[k].url).NetworkError?
      && AllFetched(images[..k], fetch)
    decreases |images|
  {
    var n := |images|;
    var prefix := images[..n - 1];
    if Build(prefix, fetch).Err? {
      BuildFirstFailure(prefix, fetch);
      var k :| 0 <= k < |prefix|
        && Build(prefix, fetch).error == FetchFailed(prefix[k].url)
        && fetch(prefix[k].url).NetworkError?
        && AllFetched(prefix[..k], fetch);
      assert prefix[..k] == images[..k];
      assert prefix[k] == images[k];
    } else {
      BuildOk(prefix, fetch);
      assert images[..n - 1] == prefix;
    }
  }

  /** One more fetched input adds (or replaces) exactly its own entry. */
  lemma BuildLast(images: seq<ImageRef>, fetch: string -> Fetched)
    requires AllFetched(images, fetch) && images != []
    ensures Build(images[..|images| - 1], fetch).Ok? && Build(images, fetch).Ok?
    ensures Build(images, fetch).value ==
      Build(images[..|images| - 1], fetch).value[EntryOf(images[|images| - 1], fetch) := fetch(images[|images| - 1].url).blob]
  {
    BuildOk(images, fetch);
    BuildOk(images[..|images| - 1], fetch);
  }

  /** Every input's entry name is a key of the successful build. */
  lemma {:induction false} BuildHasKeys(images: seq<ImageRef>, fetch: string -> Fetched)
    requires AllFetched(images, fetch)
    ensures Build(images, fetch).Ok?
    ensures forall k :: 0 <= k < |images| ==> EntryOf(images[k], fetch) in Build(images, fetch).value
    decreases |images|
  {
    BuildOk(images, fetch);
    if images != [] {
      var n := |images|;
      var prefix := images[..n - 1];
      BuildHasKeys(prefix, fetch);
      BuildLast(images, fetch);
      forall k | 0 <= k < n - 1
        ensures EntryOf(images[k], fetch) in Build(images, fetch).value
      {
        assert prefix[k] == images[k];
      }
    }
  }

  /** Every key of the successful build is the entry name of some input. */
  lemma {:induction false} BuildOnlyKeys(images: seq<ImageRef>, fetch: string -> Fetched)
    requires AllFetched(images, fetch)
    ensures Build(images, fetch).Ok?
    ensures forall name :: name in Build(images, fetch).value ==>
      exists k :: 0 <= k < |images| && name == EntryOf(images[k], fetch)
    decreases |images|
  {
    BuildOk(images, fetch);
    if images != [] {
      var n := |images|;
      var prefix := images[..n - 1];
      BuildOnlyKeys(prefix, fetch);
      BuildLast(images, fetch);
      var before := Build(prefix, fetch).value;
      forall name | name in Build(images, fetch).value
        ensures exists k :: 0 <= k < n && name == EntryOf(images[k], fetch)
      {
        if name in before {
          var k :| 0 <= k < n - 1 && name == EntryOf(prefix[k], fetch);
          assert prefix[k] == images[k];
          assert name == EntryOf(images[k], fetch);
        } else {
          assert name == EntryOf(images[n - 1], fetch);
        }
      }
    }
  }

  /** A name derived for none of the inputs is not a key of the build. */
  lemma NotAKey(images: seq<ImageRef>, fetch: string -> Fetched, name: string)
    requires AllFetched(images, fetch)
    requires forall k :: 0 <= k < |images| ==> EntryOf(images[k], fetch) != name
    ensures Build(images, fetch).Ok? && name !in Build(images, fetch).value
  {
    BuildOnlyKeys(images, fetch);
  }

  /** The entry names of a successful build are exactly the names derived for its inputs. */
  lemma BuildKeys(images: seq<ImageRef>, fetch: string -> Fetched)
    requires AllFetched(images, fetch)
    ensures Build(images, fetch).Ok?
    ensures forall k :: 0 <= k < |images| ==> EntryOf(images[k], fetch) in Build(images, fetch).value
    ensures forall name :: name in Build(images, fetch).value ==>
      exists k :: 0 <= k < |images| && name == EntryOf(images[k], fetch)
  {
    BuildHasKeys(images, fetch);
    BuildOnlyKeys(images, fetch);
  }

  /** Every entry holds the payload of the last input stored under its name: later entries overwrite. */
  lemma {:induction false} BuildLastWins(images: seq<ImageRef>, fetch: string -> Fetched, k: nat)
    requires AllFetched(images, fetch) && k < |images|
    requires forall j :: k < j < |images| ==> EntryOf(images[j], fetch) != EntryOf(images[k], fetch)
    ensures Build(images, fetch).Ok? && EntryOf(images[k], fetch) in Build(images, fetch).value
    ensures Build(images, fetch).value[EntryOf(images[k], fetch)] == fetch(images[k].url).blob
    decreases |images|
  {
    BuildLast(images, fetch);
    var n := |images|;
    var prefix := images[..n - 1];
    if k < n - 1 {
      forall j | k < j < n - 1
        ensures EntryOf(prefix[j], fetch) != EntryOf(prefix[k], fetch)
      {
        assert prefix[j] == images[j] && prefix[k] == images[k];
      }
      BuildLastWins(prefix, fetch, k);
      assert prefix[k] == images[k];
      assert EntryOf(images[n - 1], fetch) != EntryOf(images[k], fetch);
    }
  }

  /** With pairwise distinct entry names, the archive holds one entry per input. */
  lemma {:induction false} BuildSize(images: seq<ImageRef>, fetch: string -> Fetched)
    requires AllFetched(images, fetch)
    requires forall i, j :: 0 <= i < j < |images| ==> EntryOf(images[i], fetch) != EntryOf(images[j], fetch)
    ensures Build(images, fetch).Ok? && |Build(images, fetch).value| == |images|
    decreases |images|
  {
    BuildOk(images, fetch);
    if images != [] {
      var n := |images|;
      var prefix := images[..n - 1];
      AllFetchedLast(images, fetch);
      forall i, j | 0 <= i < j < n - 1
        ensures EntryOf(prefix[i], fetch) != EntryOf(prefix[j], fetch)
      {
        assert prefix[i] == images[i] && prefix[j] == images[j];
      }
      BuildSize(prefix, fetch);
      BuildLast(images, fetch);
      var before := Build(prefix, fetch).value;
      var last := EntryOf(images[n - 1], fetch);
      forall k | 0 <= k < n - 1
        ensures EntryOf(prefix[k], fetch) != last
      {
        assert prefix[k] == images[k];
      }
      NotAKey(prefix, fetch, last);
      assert |before[last := fetch(images[n - 1].url).blob]| == |before| + 1;
    }
  }

  /**
   * Activities with distinct (date, object id) pairs, dot-free object ids and
   * payloads whose extensions are dot-free give an archive with one entry each.
   */
  lemma {:induction false} DistinctActivitiesFillArchive(activities: seq<Activity>, fetch: string -> Fetched)
    requires forall k :: 0 <= k < |activities| ==> '.' !in activities[k].objectId
    requires forall i, j :: 0 <= i < j < |activities| ==>
      (activities[i].createdAt, activities[i].objectId) != (activities[j].createdAt, activities[j].objectId)
    requires AllFetched(ImageRefs(activities), fetch)
    requires forall k :: 0 <= k < |activities| ==>
      var ref := ImageRefs(activities)[k];
      '.' !in ExtensionText(Extension(fetch(ref.url).blob.mimeType))
    ensures Build(ImageRefs(activities), fetch).Ok?
    ensures |Build(ImageRefs(activities), fetch).value| == |activities|
  {
    var refs := ImageRefs(activities);
    forall i, j | 0 <= i < j < |refs|
      ensures EntryOf(refs[i], fetch) != EntryOf(refs[j], fetch)
    {
      var mi, mj := fetch(refs[i].url).blob.mimeType, fetch(refs[j].url).blob.mimeType;
      EntryNameInjective(refs[i].name, mi, refs[j].name, mj);
      BaseNameInjective(activities[i], activities[j]);
    }
    BuildSize(refs, fetch);
  }
}
