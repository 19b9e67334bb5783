# Media language linker: a verified model

The watcher `org.py` observes media folders. For every new movie or show file, it publishes one symbolic link per audio language the file carries, under `<output root>/<language>/<cleaned file name>`. It then remembers the file in a JSON cache so that the file is not processed again.

This project models the core of that program in Dafny:

- `Text` holds the pieces of Python's `str` and `os.path` the program relies on: `lower`, `endswith`, substring `in`, `isspace`/`strip`, `basename` and `join`.
- `Media` holds the media-extension test and `extract_audio_languages`. The container parser is not modelled; the list of tracks it reports is an input.
- `Sanitizer` holds the link-name cleaner, `re.sub(r'.*(1tamilblasters|1tamilmv|tamilblasters|torrenting).*?-\s*', '', name, flags=re.IGNORECASE).strip()`. It is modelled the way Python's regular-expression engine evaluates that pattern:
  - `.` stops at a newline.
  - Every non-overlapping match is removed.
  - The greedy `.*` backs off from the end of the line. The text removed therefore runs through the first `-` after the rightmost marker on the line that still has a `-` after it.
  - Under IGNORECASE a letter of the pattern also matches its upper case, the Kelvin sign (for `k`), dotted and dotless `i`, and the long `s`.
- `Links` holds the output tree. This is an abstract filesystem with directories and non-directory entries, plus `create_symlink`, `os.makedirs(..., exist_ok=True)` and the loop that publishes one link per language. It is modelled as the function `Publish`.
- `Handler` holds the `MediaFileHandler` class and the pure specification `Process` of one worker run:
  - The class keeps the cache, the cache file, the disk and the queue of submitted paths.
  - `on_created` and `process_file` are the event side.
  - `_process_media_file` is the worker. It is a method whose per-language loop is proved equal to `Process`.

The thread pool is a queue: `process_file` appends to it and `RunNext` runs the worker on its oldest path.

Inputs that come from the environment are parameters:
- the tracks the parser reports (`None` when parsing raises);
- the paths at which the operating system refuses to create a link or a directory (`refused`): `create_symlink` catches that error, while `os.makedirs` raising stops the worker;
- the contents of the cache file at start-up.

## Model

| member | source | states |
|---|---|---|
| Text.Strip | org.py:60 | definition: `str.strip()`, the right strip of the left strip, each dropping `str.isspace` characters one at a time |
| Text.Join | org.py:63 | definition: `os.path.join(dir, name)` as `dir`, one `/`, `name` |
| Text.Lower | org.py:30 | lower-casing keeps the length and leaves no ASCII capital letter; a character changes only when it is an ASCII capital or the Kelvin sign |
| Text.LowerIdempotent | org.py:30 | lower-casing an already lower-cased path changes nothing |
| Text.LStripDropsLeadingSpace | org.py:60 | the left strip is a suffix of its input that does not start with whitespace, and what it drops is all whitespace |
| Text.RStripDropsTrailingSpace | org.py:60 | the right strip is a prefix of its input that does not end with whitespace, and what it drops is all whitespace |
| Text.StripIsTrimmedSlice | org.py:60 | `strip()` returns a contiguous slice of its input with only whitespace outside it and no whitespace at either end |
| Text.StripKeepsAbsentChar | org.py:60 | `strip()` only deletes: a character absent from its input is absent from its result |
| Text.StripKeepsLastNonSpace | org.py:60 | `strip()` keeps a last character that is not whitespace as the last character of its result |
| Text.StripAfterSpaces | org.py:60 | whitespace in front of a suffix does not change what `strip()` returns (the trailing `\s*` of the pattern is absorbed by `strip()`) |
| Text.Basename | org.py:59 | the basename has no `/`, is a suffix of the path, and is preceded by a `/` when it is shorter than the path |
| Text.BasenameKeepsLastChar | org.py:59 | a path that does not end in `/` has a non-empty basename that ends in the path's last character |
| Media.IsMediaFile | org.py:27-30 | definition: the lower-cased path ends with `.mp4`, `.mkv`, `.avi` or `.mov` |
| Media.AudioLanguages | org.py:84-91 | definition: the set of language tags of the tracks whose type is `"Audio"` and whose tag is present and non-empty |
| Media.MediaExtensionAnyCase | org.py:27-30 | a path ending in any upper/lower-case spelling of `.mp4`, `.mkv`, `.avi` or `.mov` is a media file |
| Media.MediaFileByLastFour | org.py:27-30 | a path is a media file exactly when it has at least four characters and its last four, lower-cased, are one of the four extensions |
| Media.TextFileRejected | org.py:27-30 | a path ending in `.txt` is not a media file |
| Media.AudioLanguagesSnoc | org.py:88-90 | one more track adds its language exactly when it is an audio track with a non-empty language |
| Media.ExtractAudioLanguages | org.py:84-91 | the returned list has no duplicates, holds exactly the non-empty languages of the audio tracks, and holds no empty language |
| Sanitizer.MarkerLen | org.py:60 | definition: the length of the first of `1tamilblasters`, `1tamilmv`, `tamilblasters`, `torrenting` that matches at a position under IGNORECASE, or 0 |
| Sanitizer.MarkersExclusive | org.py:60 | no two of the alternatives `1tamilblasters`, `1tamilmv`, `tamilblasters`, `torrenting` match at the same position |
| Sanitizer.MarkerLenIsTheMatch | org.py:60 | whichever alternative matches at a position, its length is `MarkerLen` there, so taking the first matching alternative loses none of the engine's backtracking choices |
| Sanitizer.MarkerLenMatches | org.py:60 | `MarkerLen` is non-zero exactly where some alternative matches, and is then that alternative's length |
| Sanitizer.Hits | org.py:60 | the table of marker lengths of a name: non-zero exactly at the positions where an alternative matches, and there the length of that alternative |
| Sanitizer.Strike | org.py:60 | definition: `re.sub` from a position on: where the pattern matches, the match is dropped and scanning resumes after it; elsewhere one character is kept |
| Sanitizer.Clean | org.py:60 | definition: the cleaned link name, `strip()` of the substitution over the whole name |
| Sanitizer.LineEnd | org.py:60 | the end of the current line for `.`: no newline before it, and a newline at it unless it is the end of the name |
| Sanitizer.FirstDash | org.py:60 | the lazy `.*?-`: the first `-` in a range, with no `-` before it, or the end of the range when there is none |
| Sanitizer.SkipSpace | org.py:60 | the trailing `\s*`: everything it skips is whitespace, and it stops at the end or at a character that is not whitespace |
| Sanitizer.TagDash | org.py:60 | a match found from a start position has its marker before its `-`, both on the current line |
| Sanitizer.TagDashFindsRightmost | org.py:60 | backtracking finds the rightmost marker on the line that has a `-` after it, then the first `-` after that marker; it finds nothing exactly when no marker there has a `-` after it |
| Sanitizer.TagDashUntagged | org.py:60 | backtracking finds no match where no marker has a `-` after it |
| Sanitizer.TagDashFindsTag | org.py:60 | backtracking stops at a marker that has a `-` after it when no marker to its right on the line has one, and takes the first `-` after it |
| Sanitizer.StrikeUntagged | org.py:60 | where no marker is followed by a `-`, the substitution removes nothing |
| Sanitizer.StrikeKeepsInputChars | org.py:60 | the substitution only deletes: a character absent from the input is absent from its result |
| Sanitizer.StrikeKeepsLastChar | org.py:60 | a last character that is neither `-` nor whitespace is never removed: it stays the last character of the substitution's result |
| Sanitizer.StrikeSingleLine | org.py:60 | on one line, the substitution leaves what follows the first `-` after the last tagged marker, minus the whitespace after that `-` |
| Sanitizer.CleanUntagged | org.py:60 | a name with no marker followed by a `-` is only stripped of surrounding whitespace |
| Sanitizer.StrikeThroughLastTag | org.py:60 | `StrikeSingleLine`, stated on the markers the name holds |
| Sanitizer.CleanSingleLine | org.py:60 | on a single-line name, cleaning gives the stripped text after the first `-` that follows the last marker with a `-` after it |
| Sanitizer.CleanIsStrippedSuffix | org.py:60 | a single-line name always cleans to a stripped suffix of itself |
| Sanitizer.CleanNotEmpty | org.py:60 | a name whose last character is neither `-` nor whitespace never cleans to the empty name |
| Sanitizer.CleanKeepsSlashFree | org.py:59-60 | cleaning a basename yields a single path component (no `/`) |
| Sanitizer.NoMarkerAt | org.py:60 | no alternative matches at a position whose letters start none of the markers (every marker starts with `1` or with `ta`/`to`) |
| Sanitizer.CleanTaggedPrefix | org.py:60 | a single-line name consisting of a part that holds a marker, one `-`, and the rest cleans to the stripped rest |
| Sanitizer.MarkerLenInPrefix | org.py:60 | no alternative is longer than 14 letters, so text more than 14 characters after a position does not change which alternative matches there |
| Sanitizer.SiteTagHasMarker | org.py:60 | in the site tag `xyz.1tamilblasters.com `, `tamilblasters` matches at position 5 |
| Sanitizer.SiteTagMarker | org.py:60 | at position 5 of the site tag the alternation matches `tamilblasters` (13 letters); `1tamilblasters` and `1tamilmv` do not match there |
| Sanitizer.SiteTagPlain | org.py:60 | the site tag holds no `-` and no newline |
| Sanitizer.ReleasePlain | org.py:60 | ` Movie.Name.2020.mkv` holds no `-` and no newline and strips to `Movie.Name.2020.mkv` |
| Sanitizer.CleanSiteTaggedName | org.py:60 | `xyz.1tamilblasters.com - Movie.Name.2020.mkv` cleans to `Movie.Name.2020.mkv` (the rightmost marker is `tamilblasters` at position 5, and the only `-` comes after it) |
| Sanitizer.CleanTwoLinesNotSuffix | org.py:60 | `torrenting-a`, a newline, `torrenting-b` cleans to `a`, a newline, `b`, which is not the stripped form of any suffix of the name: each line loses its own match |
| Links.Exists | org.py:96 | definition: `os.path.exists` on the model disk: the path names an entry or a directory, also with a trailing `/` |
| Links.Symlink | org.py:93-102 | definition: `create_symlink`: the disk is unchanged when the destination exists or the system refuses it, and otherwise gains a link to the source |
| Links.MakeDirs | org.py:64 | definition: `os.makedirs(dir, exist_ok=True)` raises when `dir` is not a directory and is an existing non-directory, lies below one, or is refused; otherwise `dir` is a directory afterwards |
| Links.Publish | org.py:62-66 | definition: the language loop in list order; it stops with the blocking directory when `os.makedirs` raises, and otherwise makes the directory and calls `create_symlink` |
| Links.ExistsGrows | org.py:96 | a path that exists still exists after the disk grows |
| Links.LinkPathNotLangDir | org.py:63-65 | a link path is never a language directory when languages have no `/` |
| Links.LinkPathsDiffer | org.py:63-65 | different languages give different link paths |
| Links.PublishFrame | org.py:62-66 | the language loop keeps the disk well formed and only adds: old entries keep their contents and directories stay; each new entry is a link to the source at some language's link path that was not refused; each new directory is some language's directory |
| Links.PublishBlockedExactly | org.py:62-64 | the loop stops at `os.makedirs` exactly when it would raise for some language's directory on the disk as it was (an existing non-directory, a directory below a non-directory, or a refused path), and then the blocking path is such a directory |
| Links.MakeDirsRaisesAfterLink | org.py:62-65 | a link the loop adds for one language does not change whether `os.makedirs` raises at the directory of a language tag without `/` |
| Links.PublishNoop | org.py:62-66 | when every language already has its directory and its link path exists or is refused, the loop changes nothing |
| Links.PublishFansOut | org.py:62-66 | after a finished loop, every language's directory exists and every language's link path exists unless the system refused it |
| Links.PublishLinksFreePaths | org.py:62-66 | after a finished loop, every link path that was free and not refused is a link to the source |
| Links.PublishIdempotent | org.py:62-66 | running the loop again on its own result, over any of its languages in any order, changes nothing |
| Handler.LoadCache | org.py:72-77 | definition: `load_cache`: the cache file's map, or an empty map when there is no cache file |
| Handler.Route | org.py:49-56 | definition: the movies root when the path contains `/movies/`, else the shows root when it contains `/shows/`, else no category |
| Handler.LinkName | org.py:59-60 | definition: the cleaned basename of the source path |
| Handler.Process | org.py:40-70 | definition: one run of `_process_media_file` on given languages: no languages or no category changes nothing; `os.makedirs` raising stops the loop and leaves the file uncached; otherwise every language is published, the file is cached and the cache is saved |
| Handler.RoutePrefersMovies | org.py:49-53 | a path containing `/movies/` goes to the movies root even when it also contains `/shows/` |
| Handler.ProcessSkipsLeaveStore | org.py:45-56 | with no language, or with neither category in the path, the worker returns without changing the cache, the cache file or the disk |
| Handler.ProcessStopsBelowFile | org.py:62-70 | when the output root is a regular file, `os.makedirs` raises for the first language, so the run stops there with the cache, the cache file and the disk unchanged |
| Handler.LinkNameIsComponent | org.py:59-60 | the link name is a single path component |
| Handler.MediaFileLastChar | org.py:27-30 | a media file's path ends in `4`, `v`, `V`, `i` or `I` |
| Handler.LinkNameNotEmpty | org.py:59-60 | a path whose last character is not `/`, `-` or whitespace has a non-empty link name |
| Handler.MediaLinkNameNotEmpty | org.py:59-60 | every media file has a non-empty link name, so its link path names an entry inside the language directory |
| Handler.ProcessOnlyAddsLinks | org.py:40-70 | whatever the outcome, the worker keeps the disk well formed; it only adds directories and entries, and every entry it adds is a link to the source file |
| Handler.ProcessDone | org.py:62-70 | a finished run marks the file in the cache and saves the whole cache; the saved file reads back with the file marked; every language has its directory under the category root and its link path exists unless refused |
| Handler.ProcessDoneLinksFreePaths | org.py:62-66 | in a finished run, every free and not-refused link path now links to the source file |
| Handler.ProcessIdempotent | org.py:40-70 | running the worker again on a file it has finished, with its languages in any order (any non-empty list drawn from them), changes nothing, so a path queued twice ends as if it were queued once |
| Handler.MediaFileHandler.constructor | org.py:14-17 | the handler starts with the cache that `load_cache` (org.py 72-77, called from `main` at org.py 134) reads from the cache file, empty when there is none, and nothing queued |
| Handler.MediaFileHandler.OnCreated | org.py:20-25 | a creation event queues its path exactly when it is not a directory, is a media file and is not in the cache |
| Handler.MediaFileHandler.ProcessFile | org.py:32-38 | a path is queued exactly when the cache does not hold it; the cache is not changed |
| Handler.MediaFileHandler.CreateSymlink | org.py:93-102 | the disk becomes `Symlink` of the old disk: unchanged when the destination exists or the link is refused, otherwise a new link to the source |
| Handler.MediaFileHandler.SaveCache | org.py:79-82 | the cache file afterwards holds the whole cache |
| Handler.MediaFileHandler.ProcessMediaFile | org.py:40-70 | a parse failure changes nothing; otherwise the languages are exactly the file's audio languages without duplicates, and the new cache, cache file and disk together with the outcome are `Process` of the old ones; the cache file always reads back as the cache |
| Handler.MediaFileHandler.RunNext | org.py:36 | a worker takes the oldest queued path and runs `_process_media_file` on it, meeting each of the file's audio languages once; with nothing queued nothing changes |
| Handler.DuplicateEvents | org.py:32-38 | two creation events for an unprocessed media file, both before its worker runs, queue it twice without changing anything else |

## Left out

- The observer and the watch loop (`start_watching_directories`, org.py:104-122) and `main` (org.py:124-137) are not modelled. Their effect is the sequence of `OnCreated` calls, and `main` is the handler's constructor applied to the cache file.
- The eight worker threads are modelled as one queue run one path at a time. Two workers running at the same time on the same disk and on the shared cache dictionary are not modelled. `ProcessIdempotent` covers only a re-run that follows a finished run.
- The pymediainfo parser (`MediaInfo.parse`) is not modelled. Its tracks are an input, and its exception is the `ParseFailed` outcome. In the source that exception ends the worker silently through its future.
- Printing is not modelled. JSON encoding and decoding of the cache file are modelled as the map itself. A cache file that is unreadable or holds something other than an object is not modelled.
- The order of `list(set)` is not modelled. `ExtractAudioLanguages` returns the languages in an unspecified order, and the worker's loop follows that order.
- Text.Join: `os.path.join`'s rules for an absolute second component, and for a first component that already ends with `/`, are not modelled. The model always inserts one `/`.
- Links.MakeDirs: `os.makedirs` creating missing parent directories is not modelled. Only the language directory is added.
- Links.MakeDirs: a symbolic link that points to a directory counts as a non-directory here, also as an ancestor, so it makes `os.makedirs` raise, whereas Python would accept it.
- Links.MakeDirs: the reasons the operating system refuses to create a directory (permissions, a read-only filesystem) are collapsed into the `refused` set. In the source, as in the model, `os.makedirs` raising ends the worker before the file is cached.
- Links.Exists: a dangling link counts as existing. The real `os.path.exists` returns False for it, but `os.symlink` then fails and the error is caught, so the resulting disk is the same.
- Links.Symlink: the reasons the operating system refuses a link (permissions, missing parent, a race) are not modelled. They are collapsed into the `refused` set of paths.
- Text.Lower: this is `str.lower` only as far as ASCII suffix tests and ASCII pattern letters can see it. Full Unicode case mapping is not modelled.
- Sanitizer.Clean: the text removed runs through the last marker on a line that has a `-` after it, not through the first marker, because the leading `.*` is greedy. The model follows the code (`TagDashFindsRightmost`).
- Sanitizer.CleanIsStrippedSuffix: holds for single-line names only. Across lines each line loses its own match, so `torrenting-a`, a newline, `torrenting-b` cleans to `a`, a newline, `b`, which is the stripped form of no suffix of the name (`CleanTwoLinesNotSuffix`).
- Links.PublishBlockedExactly: stated for language tags without `/`. A tag such as `en/x` has the directory that is the link path of the tag `en` for the link name `x`. `Publish` itself treats such tags as the source does, but the lemma does not cover them.
- Links.MakeDirsRaisesAfterLink: stated for a language tag without `/`. The link `/o/en/x` for the tag `en` and the link name `x` is the directory of the tag `en/x`, so there the link does change whether `os.makedirs` raises.
- Links.PublishLinksFreePaths: stated for language tags without `/`, as above, and for a link name that is non-empty and holds no `/`. `Handler.MediaLinkNameNotEmpty` and `Handler.LinkNameIsComponent` show that every media file's link name meets the second condition.
- Handler.ProcessDoneLinksFreePaths: stated for language tags without `/`, as above. The non-empty link name it needs holds for every media file (`Handler.MediaLinkNameNotEmpty`).
