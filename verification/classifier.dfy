/**
 * Path classification: `split_images_videos` keeps, in walk order, the paths
 * that name an image and, separately, those that name a video; every other
 * path is dropped. The tests are plain, case-sensitive suffix tests. The third
 * image suffix is "jpeg" without a dot, so any path ending in those four
 * letters counts as an image.
 */
module Classifier {
  import opened Seqs
  import opened PathWalk

  datatype Kind = Image | Video | Other

  const ImageSuffixes: seq<string> := [".png", ".jpg", "jpeg"]
  const VideoSuffixes: seq<string> := [".mp4", ".avi"]

  predicate EndsWith(s: string, suffix: string)
  {
    |suffix| <= |s| && s[|s| - |suffix|..] == suffix
  }

  /** `any(path.endswith(x) for x in suffixes)` */
  predicate EndsWithAny(path: string, suffixes: seq<string>)
  {
    exists k :: 0 <= k < |suffixes| && EndsWith(path, suffixes[k])
  }

  /** Where one path goes: the image test is made first, so a path that passes
      both tests is an image. */
  function KindOf(path: string): (kind: Kind)
    ensures kind == Image <==> EndsWith(path, ".png") || EndsWith(path, ".jpg") || EndsWith(path, "jpeg")
    ensures kind == Video <==> !(EndsWith(path, ".png") || EndsWith(path, ".jpg") || EndsWith(path, "jpeg"))
                               && (EndsWith(path, ".mp4") || EndsWith(path, ".avi"))
    ensures kind == Other <==> !(EndsWith(path, ".png") || EndsWith(path, ".jpg") || EndsWith(path, "jpeg"))
                               && !(EndsWith(path, ".mp4") || EndsWith(path, ".avi"))
  {
    assert EndsWithAny(path, ImageSuffixes) <==>
           EndsWith(path, ".png") || EndsWith(path, ".jpg") || EndsWith(path, "jpeg") by {
      assert ImageSuffixes[0] == ".png" && ImageSuffixes[1] == ".jpg" && ImageSuffixes[2] == "jpeg";
    }
    assert EndsWithAny(path, VideoSuffixes) <==> EndsWith(path, ".mp4") || EndsWith(path, ".avi") by {
      assert VideoSuffixes[0] == ".mp4" && VideoSuffixes[1] == ".avi";
    }
    if EndsWithAny(path, ImageSuffixes) then Image
    else if EndsWithAny(path, VideoSuffixes) then Video
    else Other
  }

  /** The test "is of this kind", as a value `Filter` can take. */
  function KindTest(kind: Kind): string -> bool
  {
    (p: string) => KindOf(p) == kind
  }

  /** The paths of one kind, in their original order. */
  function Select(paths: seq<string>, kind: Kind): (selected: seq<string>)
    ensures forall p :: p in selected <==> p in paths && KindOf(p) == kind
  {
    Filter(paths, KindTest(kind))
  }

  /** Selecting keeps every path of the kind as often as it occurs, and no other. */
  lemma SelectCounts(paths: seq<string>, kind: Kind, p: string)
    ensures multiset(Select(paths, kind))[p] == if KindOf(p) == kind then multiset(paths)[p] else 0
  {
    FilterCounts(paths, KindTest(kind), p);
  }

  /** Selecting keeps the walk order. */
  lemma SelectIsSubsequence(paths: seq<string>, kind: Kind)
    ensures IsSubsequence(Select(paths, kind), paths)
  {
    FilterIsSubsequence(paths, KindTest(kind));
  }

  lemma SelectStep(paths: seq<string>, k: nat, kind: Kind)
    requires k < |paths|
    ensures Select(paths[..k + 1], kind)
         == Select(paths[..k], kind) + if KindOf(paths[k]) == kind then [paths[k]] else []
  {
    assert paths[..k + 1][..k] == paths[..k];
  }

  /** `split_images_videos(base)` for the node found at `base`: walks it with
      `get_paths`, then sorts each path into the images, the videos or
      neither, keeping walk order. */
  method SplitImagesVideos(base: string, root: Node) returns (images: seq<string>, videos: seq<string>)
    ensures images == Select(Leaves(base, root), Image)
    ensures videos == Select(Leaves(base, root), Video)
    ensures forall p :: p in images <==> p in Leaves(base, root) && KindOf(p) == Image
    ensures forall p :: p in videos <==> p in Leaves(base, root) && KindOf(p) == Video
    ensures forall p :: p in images ==> p !in videos
    ensures IsSubsequence(images, Leaves(base, root)) && IsSubsequence(videos, Leaves(base, root))
  {
    var paths := GetPaths(base, root);
    images, videos := [], [];
    for k := 0 to |paths|
      invariant images == Select(paths[..k], Image)
      invariant videos == Select(paths[..k], Video)
    {
      var path := paths[k];
      SelectStep(paths, k, Image);
      SelectStep(paths, k, Video);
      if EndsWithAny(path, ImageSuffixes) {
        images := images + [path];
      } else if EndsWithAny(path, VideoSuffixes) {
        videos := videos + [path];
      }
    }
    assert paths[..|paths|] == paths;
    SelectIsSubsequence(paths, Image);
    SelectIsSubsequence(paths, Video);
  }

  /** "jpeg" needs no dot before it. */
  lemma JpegWithoutDot()
    ensures KindOf("scan_jpeg") == Image
  {
    assert "scan_jpeg"[5..] == "jpeg";
  }

  /** The tests are case-sensitive: an upper-case suffix is dropped. */
  lemma UpperCaseDropped()
    ensures KindOf("b.PNG") == Other
  {
    var b := "b.PNG";
    assert b[1..] != ".png" && b[1..] != ".jpg" && b[1..] != "jpeg" && b[1..] != ".mp4" && b[1..] != ".avi";
  }
}
