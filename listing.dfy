/**
 * The media listing of main.go:128-147: `getVideos` walks the upload directory and keeps
 * the regular entries whose name ends in `.mp4`, `.jpg` or `.png`.
 */
module Listing {
  import opened Common

  /** One listed media file: its base name and the path the walk reached it by. */
  datatype Video = Video(name: string, path: string)

  /**
   * One call of the walk callback: either an entry with its base name and directory
   * flag, or an error the walk reports for `path`.
   */
  datatype WalkEntry =
    | Visit(path: string, name: string, isDir: bool)
    | WalkError(path: string, err: string)

  /** Go's `strings.HasSuffix`. */
  predicate HasSuffix(s: string, suffix: string)
  {
    |suffix| <= |s| && s[|s| - |suffix|..] == suffix
  }

  /** The three extensions the listing recognises (case-sensitive). */
  predicate IsMediaName(name: string)
  {
    HasSuffix(name, ".mp4") || HasSuffix(name, ".jpg") || HasSuffix(name, ".png")
  }

  /** The callback's test: a non-directory entry with a media name. */
  predicate Listed(e: WalkEntry)
  {
    e.Visit? && !e.isDir && IsMediaName(e.name)
  }

  function VideoOf(e: WalkEntry): Video
    requires e.Visit?
  {
    Video(e.name, e.path)
  }

  /** The index of the first walk error, or `|walk|` when the walk has none. */
  function FirstWalkError(walk: seq<WalkEntry>): (k: nat)
    ensures k <= |walk|
    ensures forall i :: 0 <= i < k ==> walk[i].Visit?
    ensures k < |walk| ==> walk[k].WalkError?
  {
    if walk == [] then 0 else if walk[0].WalkError? then 0 else 1 + FirstWalkError(walk[1..])
  }

  /** The records the callback appends for a run of error-free entries, in walk order. */
  function Collected(entries: seq<WalkEntry>): seq<Video>
  {
    if entries == [] then []
    else
      var last := entries[|entries| - 1];
      Collected(entries[..|entries| - 1]) + (if Listed(last) then [VideoOf(last)] else [])
  }

  /**
   * `getVideos` over a walk given as its sequence of callback calls. The walk stops at the
   * first error, which is returned alongside the records collected before it.
   */
  method GetVideos(walk: seq<WalkEntry>) returns (videos: seq<Video>, err: Option<string>)
    ensures videos == Collected(walk[..FirstWalkError(walk)])
    ensures err == if FirstWalkError(walk) < |walk| then Some(walk[FirstWalkError(walk)].err) else None
  {
    videos := [];
    err := None;
    var i := 0;
    while i < |walk|
      invariant i <= |walk|
      invariant forall j :: 0 <= j < i ==> walk[j].Visit?
      invariant videos == Collected(walk[..i])
    {
      var entry := walk[i];
      if entry.WalkError? {
        err := Some(entry.err);
        assert FirstWalkError(walk) == i;
        return;
      }
      if !entry.isDir && IsMediaName(entry.name) {
        videos := videos + [Video(entry.name, entry.path)];
      }
      assert walk[..i + 1][..i] == walk[..i];
      i := i + 1;
    }
    assert walk[..i] == walk;
  }

  /** Collecting distributes over concatenation, so records keep the walk's order. */
  lemma {:induction false} CollectedAppend(a: seq<WalkEntry>, b: seq<WalkEntry>)
    ensures Collected(a + b) == Collected(a) + Collected(b)
    decreases |b|
  {
    if b == [] {
      assert a + b == a;
    } else {
      var b' := b[..|b| - 1];
      assert (a + b)[..|a + b| - 1] == a + b';
      CollectedAppend(a, b');
    }
  }

  /**
   * A record is collected exactly when some entry passes the callback's test and has that
   * record's name and path.
   */
  lemma {:induction false} CollectedMembership(entries: seq<WalkEntry>, v: Video)
    ensures v in Collected(entries) <==>
      exists i :: 0 <= i < |entries| && Listed(entries[i]) && v == VideoOf(entries[i])
    decreases |entries|
  {
    if entries != [] {
      var init := entries[..|entries| - 1];
      CollectedMembership(init, v);
      forall i | 0 <= i < |init| ensures init[i] == entries[i] { }
    }
  }

  /** Every listed name ends in one of the three media extensions. */
  lemma EveryListedNameIsMedia(entries: seq<WalkEntry>, v: Video)
    requires v in Collected(entries)
    ensures IsMediaName(v.name)
  {
    CollectedMembership(entries, v);
  }

  /** A `.jpeg` name (the other common JPEG spelling) is never listed. */
  lemma JpegNameNeverMedia(name: string)
    requires HasSuffix(name, ".jpeg")
    ensures !IsMediaName(name)
  {
    var n := |name|;
    assert name[n - 4..] == name[n - 5..][1..] == "jpeg";
  }
}
