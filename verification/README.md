# HLS playlist downloader — Dafny model

This project models the pure string and list logic of a single-script HLS
downloader (`main.py`). Given a playlist (`.m3u8`) URL, the script:

1. works out the base URL of the segments and an optional signed-access token
   (the `__gda__` query parameter);
2. turns every URI line of the playlist into an absolute segment URL;
3. saves each segment under the name that follows the last `/` of its URL,
   cut before the first `?`;
4. lists the saved segments in a list file for ffmpeg's concat demuxer;
5. picks a collision-free output file name;
6. removes the `.ts` files afterwards.

The network, ffmpeg and filesystem calls around that logic are inputs or are
left out. The modules follow the script's components:

- `Strings` (`strings.dfy`): the Python `str` operations the script uses, stated over `string`. These are `strip()`, `split(sep)`, `sep.join`, `startswith`/`endswith` and `str(n)`, plus the `rfind` that `os.path.splitext` relies on. `Split` is characterised by its contract and by `SplitJoin`: the pieces hold no separator, and joining them back gives the input.
- `Urls` (`urls.dfy`): `get_base_url` and `extract_gda_param` on a parsed URL record. The record holds scheme, network location, path and the decoded query pairs.
- `Filenames` (`filenames.dfy`): `sanitize_filename`, `os.path.splitext` and `get_unique_filename`. The existence test is membership in a finite set of names already taken.
- `Playlist` (`playlist.dfy`): `extract_ts_urls_from_m3u8`, with the text it writes to `ts_urls_list.txt`.
- `Workspace` (`workspace.dfy`): the lines of `create_ffmpeg_file_list`, and the choice of files `cleanup_ts_files` removes.
- `Pipeline` (`pipeline.dfy`): the order in which the `__main__` driver runs the stages, and where it stops.
- `Results` (`results.dfy`): an `Option` type.

The parser prepends the base URL to every URI line. Absolute URI lines are
not special-cased, and the model keeps that behaviour. A URI line is one that
is non-empty after `strip()` and does not start with `#`, following section
4.1 of RFC 8216.

Two consequences of the code are easy to miss:

- The token comes from `parse_qs`. `parse_qs` drops blank values before
  `[0]` is taken. So a query `__gda__=&__gda__=abc` gives `?__gda__=abc`: the
  first non-blank value counts, not the first occurrence. This is shown in
  `Urls.GdaParamSkipsBlank`.
- The saved name of a segment is taken from the full URL, token included. A
  token that holds a `/` therefore replaces the name of every segment with
  the same text, as `Filenames.SanitizeTokenWithSlash` shows. A percent-decoded
  `%2F` is one way to get such a token. Tokens without `/` leave the name
  alone, as `Filenames.SanitizeIgnoresBaseAndToken` shows.

## Model

| member | source | states |
|---|---|---|
| Strings.StripIsSlice | main.py:45 | `line.strip()` keeps one contiguous slice of the line and removes only whitespace before and after it |
| Strings.StripIdempotent | main.py:45 | stripping an already stripped line changes nothing |
| Strings.SplitJoin | main.py:97 | `'/'.join(path.split('/'))` gives the path back: split pieces joined with their separator restore the text |
| Strings.NatToString | main.py:18 | the counter in a probe name is written as non-empty decimal digits, with no leading zero, that denote the counter |
| Filenames.Sanitize | main.py:5-6 | the saved file name holds no `/` and no `?` |
| Filenames.SanitizeIsLastSegmentBeforeQuery | main.py:5-6 | the saved name is the text after the last `/` of the URL, cut before the first `?` that follows |
| Filenames.SanitizeIdempotent | main.py:5-6 | sanitizing an already sanitized name gives it back unchanged |
| Filenames.SanitizePlainName | main.py:5-6 | a name holding no `/` and no `?` is saved under itself |
| Filenames.SanitizeKeepsAbsence | main.py:5-6 | the saved name is a piece of the URL: a character absent from the URL is absent from the name |
| Filenames.SanitizeIgnoresBaseAndToken | main.py:79 | the saved name of a segment URL is that of its playlist line alone, when the base ends in `/` and the token has no `/` |
| Filenames.SanitizeTokenWithSlash | main.py:79 | a token holding `/` makes every segment URL's saved name the token's tail, whatever the line |
| Filenames.SplitExt | main.py:13 | `splitext` splits the name into base and extension that concatenate back to it; the extension is empty or a `.` followed by no further `.` and no `/` |
| Filenames.SplitExtHasExtension | main.py:13 | there is an extension exactly when the last path component has a `.` with some character other than `.` somewhere before it; the extension is then a tail of that component |
| Filenames.SplitExtExamples | main.py:13 | `video.mp4` splits as `video` + `.mp4`; `.profile` and `a.d/name` have no extension |
| Filenames.ProbeInjective | main.py:18 | probe names with different counters are different names |
| Filenames.ProbesCount | main.py:17-19 | the probe names `base_1+ext` … `base_n+ext` are n different names, and no later probe repeats one of them; this bounds the loop |
| Filenames.UniqueFilename | main.py:8-21 | the returned name is free; it is the requested name when that is free, otherwise `base_k+ext` for a `k >= 1` all of whose predecessors are taken |
| Filenames.UniqueNameIsDetermined | main.py:13-21 | at most one name meets that promise, so the result is `base_k+ext` for the least free `k` |
| Filenames.UniqueNameExamples | main.py:13-21 | in an empty folder `video.mp4` is kept; with `video.mp4` and `video_1.mp4` taken the result is `video_2.mp4` |
| Urls.BasePath | main.py:97 | the directory part ends with `/`; it is the path up to and including its last `/`, or `/` alone when the path has none |
| Urls.BaseUrlShape | main.py:95-98 | the base URL starts with `scheme://netloc`, ends with `/`, continues with the path cut after its last `/`, and does not depend on the query |
| Urls.BaseUrlOfPlaylistPath | main.py:95-98 | a playlist at `<dir><file>`, where `dir` ends with `/` and `file` has no `/`, has base URL `scheme://netloc<dir>` |
| Urls.BaseUrlExample | main.py:95-98 | `https://cdn.example.com/a/b/playlist.m3u8?x=y` has base URL `https://cdn.example.com/a/b/` |
| Urls.QueryValues | main.py:102 | the values `parse_qs` lists for a name are non-blank and each comes from a pair with that name |
| Urls.QueryValuesFirst | main.py:102 | the first listed value is that of the first pair giving the name a non-blank value; later ones do not matter |
| Urls.GdaParamCases | main.py:100-103 | the token is empty exactly when no pair gives `__gda__` a non-blank value; otherwise it is `?__gda__=` plus the first such value |
| Urls.GdaParamExamples | main.py:100-103 | `__gda__=TOKEN` gives `?__gda__=TOKEN`; a query without `__gda__` gives the empty string |
| Urls.GdaParamSkipsBlank | main.py:102-103 | a blank first `__gda__` is dropped and a later non-blank value supplies the token |
| Playlist.SegmentUrl | main.py:45-49 | whether or not the token is empty, a URI line becomes exactly base URL + stripped line + token |
| Playlist.SegmentUrlsAppend | main.py:44-49 | the URLs of two consecutive parts of a playlist are those of the first part followed by those of the second: line order is kept |
| Playlist.SegmentUrlsOfLine | main.py:45-49 | a single line contributes its URL when it is a URI line and nothing when it is blank, a tag or a comment |
| Playlist.SegmentUrlsCount | main.py:44-49 | there are exactly as many segment URLs as URI lines |
| Playlist.SegmentUrlsFromUriLines | main.py:44-49 | every segment URL is base URL + the stripped text of some URI line of the playlist + token; no blank, tag or comment line yields one |
| Playlist.SegmentUrlsShape | main.py:45-49 | every segment URL starts with the base URL and ends with the token |
| Playlist.UrlListReadBack | main.py:44-53 | the URL list file, split at newlines, holds the returned URLs in order, for lines as iterating over the file yields them (a newline only as a line's last character, which `strip()` removes), when the base URL and token hold no newline |
| Playlist.WriteUrlList | main.py:51-53 | the loop writing `url + '\n'` for each URL in turn produces the newline-terminated lines of the URLs, in order |
| Playlist.ExtractTsUrls | main.py:41-56 | the loop returns exactly the segment URLs of the playlist's URI lines, in line order, and writes exactly those URLs one per line |
| Playlist.UriLineByFirstChar | main.py:45-46 | a line is a URI line exactly when its stripped text is non-empty and its first character is not `#` |
| Playlist.TwoTagsTwoSegments | main.py:44-49 | two non-URI lines followed by two clean URI lines give two URLs, base URL + each line, in order |
| Playlist.TwoSegmentExample | main.py:41-56 | `#EXTM3U`, `#EXTINF:10,`, `seg1.ts`, `seg2.ts` under `https://cdn/x/` give `https://cdn/x/seg1.ts` and `https://cdn/x/seg2.ts` |
| Workspace.PathJoinShape | main.py:79 | `os.path.join(a, b)`: an absolute `b` is the result; otherwise the result starts with `a`, ends with `b`, and has a single `/` between them when `a` is non-empty (none added when `a` already ends with `/`) |
| Workspace.SegmentPathShape | main.py:79 | a segment's listed path starts with the working folder and its last component is the segment's saved name; for a folder not ending in `/` it is exactly `<folder>/<saved name>` |
| Workspace.FileListLines | main.py:78-80 | the list has one line per segment URL, in the same order, each `file '<folder>/<saved name>'` |
| Workspace.FileListLineReadBack | main.py:79-80 | one list line holds no newline when the folder and URL hold none, and the text between its quotes is the path the segment was saved under |
| Workspace.FileListReadBack | main.py:75-82 | the list file, split at newlines and read between the quotes, gives line by line the paths the segments were saved under, in segment order |
| Workspace.CleanupTsFiles | main.py:89-93 | exactly the entries whose name ends in `.ts` are removed; every other entry remains |
| Pipeline.WantedName | main.py:106-111 | the requested output name is the stripped answer when that is non-blank, and `combined_video.mp4` when it is blank |
| Pipeline.CleanupKeepsBookkeeping | main.py:90-92 | the URL list, the ffmpeg list and an `.m3u8` playlist copy are never removed by cleanup |
| Pipeline.Run | main.py:105-134 | the output name is fixed first; a failed playlist fetch stops the run; a playlist without URI lines stops before download, after an empty URL list file was written; otherwise list, combine and cleanup follow on the extracted URLs |

## Left out

- Network I/O in `download_m3u8_file` and `download_ts_files` (main.py:23-39, 58-73) is left out. This covers `requests.get`, `raise_for_status`, 8192-byte chunked writes, and skipping a segment whose download fails. The fetch outcome enters `Pipeline.Run` as an `Option` input.
- The ffmpeg call in `combine_ts_files_ffmpeg` (main.py:84-87) is left out. It runs an external process, and its exit status is not checked.
- Reading and writing files is left out: opening them, decoding text, and splitting into lines. The playlist is given as the sequence of lines that iterating over the file yields. Written files are modelled by their text.
- `os.makedirs`, `os.listdir` and `os.remove` are left out. The folder listing at cleanup is an input of `Workspace.CleanupTsFiles`, and removal is modelled by the set of names that remain. A directory whose name ends in `.ts` would make `os.remove` raise; this is not modelled.
- The internals of `urlparse` and `parse_qs` are left out, including percent-decoding and `&` splitting. The URL arrives as a record with its query already decoded into ordered name/value pairs. The model applies only the blank-value dropping.
- `os.path` is modelled as POSIX `posixpath`: `join` and `splitext` treat only `/` as a separator. On Windows, `ntpath` also separates at `\` and after a drive `:`, which is not modelled.
- `os.path.exists(os.path.join(output_folder, name))` is modelled as membership of `name` in a set of taken names.
- Console prompts and `print` messages are left out. The two prompt answers are inputs of `Pipeline.Run`; the URL answer arrives already parsed.
- Workspace.ListedPath: reads a list line as the text between `file '` and the final `'`. ffmpeg's own quoting and escaping rules are not modelled, and the script does not escape quotes in paths.
- How ffmpeg's concat demuxer resolves a listed path is not modelled. The demuxer resolves a relative entry against the folder of the list file itself. The list file is written inside the working folder (main.py:76), and each entry already starts with that folder (main.py:79). With the relative working folder `temp_files` (main.py:119), the entries would therefore name `temp_files/temp_files/<name>`, not the files saved at main.py:62. The model states only the text between the quotes.
- Pipeline.Run: does not say which files the downloads leave in the working folder, because that depends on the network. The folder listing seen by cleanup is an input.
