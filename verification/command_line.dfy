/**
 * Argument handling: `parse_args` picks the input path from the command line
 * (at most one argument; "assets" when there is none), insists that the path
 * exists, and hands it to `split_images_videos`.
 *
 * The filesystem is a map from each existing path to the node found there, so
 * "the path exists" is membership in the map. A failed check is an error value
 * rather than a failed assertion that ends the program.
 */
module CommandLine {
  import opened PathWalk
  import opened Classifier

  /** The input path used when no argument is given. */
  const DefaultBaseDir: string := "assets"

  type FileSystem = map<string, Node>

  datatype ArgError = TooManyArguments | PathNotFound(path: string)

  datatype Result<T> = Ok(value: T) | Err(error: ArgError)

  /** The input path `argv` asks for (argv[0] is the program name), or why
      there is none. Too many arguments is reported before a missing path. */
  function BaseDir(argv: seq<string>, fs: FileSystem): (r: Result<string>)
    ensures r == Err(TooManyArguments) <==> |argv| > 2
    ensures r.Ok? <==> |argv| <= 2 && (if |argv| == 2 then argv[1] else DefaultBaseDir) in fs
    ensures r.Ok? ==> r.value in fs
    ensures r.Ok? && |argv| == 2 ==> r.value == argv[1]
    ensures r.Ok? && |argv| < 2 ==> r.value == DefaultBaseDir
    ensures r.Err? && r.error.PathNotFound? ==>
              |argv| <= 2 && r.error.path !in fs &&
              r.error.path == (if |argv| == 2 then argv[1] else DefaultBaseDir)
  {
    var base := if |argv| == 2 then argv[1] else DefaultBaseDir;
    if |argv| > 2 then Err(TooManyArguments)
    else if base !in fs then Err(PathNotFound(base))
    else Ok(base)
  }

  /** `parse_args`: the images and the videos below the chosen input path. */
  method ParseArgs(argv: seq<string>, fs: FileSystem) returns (r: Result<(seq<string>, seq<string>)>)
    ensures r.Err? <==> BaseDir(argv, fs).Err?
    ensures r.Err? ==> r.error == BaseDir(argv, fs).error
    ensures r.Ok? ==> var base := BaseDir(argv, fs).value;
                      r.value.0 == Select(Leaves(base, fs[base]), Image) &&
                      r.value.1 == Select(Leaves(base, fs[base]), Video)
  {
    var base := DefaultBaseDir;
    if |argv| == 2 {
      base := argv[1];
    }
    if |argv| > 2 {
      return Err(TooManyArguments);
    }
    if base !in fs {
      return Err(PathNotFound(base));
    }
    var images, videos := SplitImagesVideos(base, fs[base]);
    r := Ok((images, videos));
  }
}
