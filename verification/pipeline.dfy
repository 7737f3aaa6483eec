/**
 The order in which the `__main__` driver runs the stages. The two answers
 typed at the prompts, the outcome of fetching the playlist and the folder
 listing seen at cleanup are inputs; the downloads and the ffmpeg run
 themselves are not modelled.
 */
module Pipeline {
  import opened Strings
  import opened Urls
  import opened Filenames
  import opened Playlist
  import opened Workspace
  import opened Results

  const DefaultOutputName: string := "combined_video.mp4"
  const OutputFolder: string := "output_video"
  const TempFolder: string := "temp_files"

  /** How far a run gets. */
  datatype RunResult =
    | PlaylistUnavailable
    | NoSegments(urlList: string)
    | Combined(tsUrls: seq<string>, urlList: string, fileList: string, outputPath: string,
               removed: seq<string>, remaining: set<string>)

  /** The output name asked for: the stripped answer, or the default name
      when the answer is blank. */
  function WantedName(answer: string): (name: string)
    ensures name != ""
    ensures Strip(answer) != "" ==> name == Strip(answer)
    ensures Strip(answer) == "" ==> name == DefaultOutputName
  {
    var name := Strip(answer);
    if name == "" then DefaultOutputName else name
  }

  /** The driver: pick a free output name first, then fetch the playlist;
      stop when the fetch failed; extract the segment URLs; stop when there
      are none; otherwise write the ffmpeg list, combine into the output
      folder and delete the `.ts` files from the working folder. */
  method Run(url: ParsedUrl, nameAnswer: string, existingOutputs: set<string>,
             playlist: Option<seq<string>>, tempListing: seq<string>)
    returns (outputName: string, result: RunResult)
    ensures IsUniqueName(existingOutputs, WantedName(nameAnswer), outputName)
    ensures result.PlaylistUnavailable? <==> playlist.None?
    ensures result.NoSegments? <==> playlist.Some? && CountUriLines(playlist.value) == 0
    ensures result.NoSegments? ==> result.urlList == ""
    ensures result.Combined? ==>
      && playlist.Some?
      && result.tsUrls == SegmentUrls(playlist.value, BaseUrl(url), GdaParam(url))
      && |result.tsUrls| == CountUriLines(playlist.value) > 0
      && result.urlList == Unlines(result.tsUrls)
      && result.fileList == Unlines(FileListLines(result.tsUrls, TempFolder))
      && result.outputPath == PathJoin(OutputFolder, outputName)
      && (forall n :: n in result.removed <==> n in tempListing && IsTsFile(n))
      && (forall n :: n in result.remaining <==> n in tempListing && !IsTsFile(n))
  {
    outputName := UniqueFilename(existingOutputs, WantedName(nameAnswer));
    var baseUrl := BaseUrl(url);
    var gdaParam := GdaParam(url);
    if playlist.None? {
      return outputName, PlaylistUnavailable;
    }
    var tsUrls, urlList := ExtractTsUrls(playlist.value, baseUrl, gdaParam);
    SegmentUrlsCount(playlist.value, baseUrl, gdaParam);
    if tsUrls == [] {
      return outputName, NoSegments(urlList);
    }
    var fileList := Unlines(FileListLines(tsUrls, TempFolder));
    var outputPath := PathJoin(OutputFolder, outputName);
    var removed, remaining := CleanupTsFiles(tempListing);
    result := Combined(tsUrls, urlList, fileList, outputPath, removed, remaining);
  }

  /** The files the run writes besides the segments stay after cleanup: the
      URL list, the ffmpeg list and a playlist copy saved under an `.m3u8`
      name do not end in `.ts`. */
  lemma CleanupKeepsBookkeeping(playlistName: string)
    requires EndsWith(playlistName, ".m3u8")
    ensures !IsTsFile("ts_urls_list.txt") && !IsTsFile("file_list.txt") && !IsTsFile(playlistName)
  {
    assert playlistName[|playlistName| - 3..] == playlistName[|playlistName| - 5..][2..];
  }
}
