/**
 * `loadGIFFrames`: the background load of one item's GIF and the frame
 * collection that decides between success and failure. The fetch and the
 * image library are inputs; only the decisions made on their results are
 * modelled.
 */
module GifFrames {
  import opened Wrappers

  /** A decoded, resized frame; only its identity matters here. */
  datatype Image = Image(serial: nat)

  /**
   * What the platform yields for one location: the read of its bytes
   * fails, or it succeeds and the bytes open as an image source (absent
   * when they are not an image container) whose i-th thumbnail may fail.
   */
  datatype Fetch = FetchFailed | Fetched(source: Option<seq<Option<Image>>>)

  datatype LoadError = TransportError | InvalidGifData | NoValidFrames

  /** The value handed to the completion handler. */
  datatype LoadResult = Loaded(frames: seq<Image>) | LoadFailed(error: LoadError)

  /** The thumbnails that could be made, in frame order. */
  function Thumbnails(thumbs: seq<Option<Image>>): (frames: seq<Image>)
    ensures |frames| <= |thumbs|
    ensures forall f :: f in frames <==> Some(f) in thumbs
    ensures frames == [] <==> forall i :: 0 <= i < |thumbs| ==> thumbs[i].None?
  {
    if thumbs == [] then []
    else
      var last := thumbs[|thumbs| - 1];
      Thumbnails(thumbs[..|thumbs| - 1]) + (if last.Some? then [last.value] else [])
  }

  /** The thumbnails of one more frame. */
  lemma ThumbnailsNext(thumbs: seq<Option<Image>>, i: nat)
    requires i < |thumbs|
    ensures Thumbnails(thumbs[..i + 1]) ==
      Thumbnails(thumbs[..i]) + if thumbs[i].Some? then [thumbs[i].value] else []
  {
    assert thumbs[..i + 1][..i] == thumbs[..i];
  }

  /**
   * The decisions of `loadGIFFrames`: a failed read, data that is not an
   * image source, and a source that yields no thumbnail all fail; otherwise
   * the frames are the thumbnails in order. So a load fails exactly when it
   * produced no frame.
   */
  method LoadGifFrames(fetch: Fetch) returns (r: LoadResult)
    ensures r.Loaded? <==> fetch.Fetched? && fetch.source.Some? && Thumbnails(fetch.source.value) != []
    ensures r.Loaded? ==> r.frames == Thumbnails(fetch.source.value)
    ensures fetch.FetchFailed? ==> r == LoadFailed(TransportError)
    ensures fetch == Fetched(None) ==> r == LoadFailed(InvalidGifData)
    ensures fetch.Fetched? && fetch.source.Some? && Thumbnails(fetch.source.value) == [] ==>
      r == LoadFailed(NoValidFrames)
  {
    match fetch
    case FetchFailed =>
      r := LoadFailed(TransportError);
    case Fetched(None) =>
      r := LoadFailed(InvalidGifData);
    case Fetched(Some(thumbs)) =>
      var frames: seq<Image> := [];
      for i := 0 to |thumbs|
        invariant frames == Thumbnails(thumbs[..i])
      {
        ThumbnailsNext(thumbs, i);
        if thumbs[i].Some? {
          frames := frames + [thumbs[i].value];
        }
      }
      assert thumbs[..|thumbs|] == thumbs;
      if frames == [] {
        r := LoadFailed(NoValidFrames);
      } else {
        r := Loaded(frames);
      }
  }
}
