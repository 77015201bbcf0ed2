# music.py downloader core, modelled in Dafny

`music.py` downloads a YouTube video or playlist as MP3 files. It embeds
each song's thumbnail as the MP3's cover art and then deletes the leftover
images. This project models the decisions it makes along the way:

- **URL normalisation** (`convert_youtube_music_url`): YouTube Music
  playlist links are rewritten to the regular YouTube host.
- **Error cleaning** (`clean_error_message`): a download error's text
  becomes one short line.
- **Thumbnail lookup** (`find_thumbnail`): the extensions `jpg`, `jpeg`,
  `png` and `webp` are tried in that order. A `.webp` match is converted to
  a JPEG written beside it.
- **Sweep** (`cleanup_thumbnails`): every file whose name ends in one of
  those extensions is deleted.
- **Fallback pass** (`process_existing_files`): after a failed download,
  every MP3 already in the folder is matched with its thumbnail, and then
  the folder is swept.
- **Control flow** (`download_mp3`): it chooses between the fallback, the
  playlist branch and the single-video branch.

The output folder is a class `Pipeline.OutputFolder`. It holds the set of
file names in the folder and the sequence of embeds performed so far. Its
methods change that state in place, as the program does through the file
system.

Each method is proved against a function on values:

- `Thumbnails.Lookup` for one lookup;
- `Thumbnails.Swept` for the sweep;
- `Pipeline.RunJobs` for a whole pass over the songs, itself shown equal
  to `Pipeline.EmbedsOf`, the embeds read off the starting folder.

Two decisions are modelled twice: once as written and once as evidently
intended (see "## Findings"). The as-written halves are
`Thumbnails.ConvertedNameAsWritten` for the `.webp` conversion and
`Pipeline.EntryStepAsWritten` for the playlist entry test. The rest of the
model, and every guarantee below, is about the corrected program:

- The first existing extension wins.
- A converted JPEG never replaces an existing file. As written, it can;
  see the first finding.
- A lookup never changes any title's lookup, so a pass embeds, in song
  order, each song's own thumbnail as found in the starting folder.
- A song is embedded exactly when one of its own images was present, and
  always with that image, even when a playlist repeats a title.
- The sweep leaves no image and keeps every other file, whatever the pass
  added.
- The fallback considers exactly the listed MP3s, and the playlist branch
  exactly the processed entries, in entry order.

Files:

- `text.dfy`: Python's string operations used by the program (`in`,
  `endswith`, literal replacement, `split('\n')[0]`, `os.path.splitext`);
- `url_normalizer.dfy`;
- `error_messages.dfy`;
- `thumbnails.dfy`;
- `pipeline.dfy`.

The folder after a single-video download is modelled as the code leaves
it. The sweep runs only when that video's thumbnail was found
(music.py:67-69). If no thumbnail was found, any images already in the
folder stay.

## Model

| member | source | states |
|---|---|---|
| Text.ReplaceAllNoMatch | music.py:15 | when the pattern does not occur, the substitution returns the text unchanged |
| Text.ReplaceAllAtFirstMatch | music.py:15 | the text before the leftmost occurrence is kept, that occurrence becomes the replacement, and the scan resumes right after it, so occurrences never overlap |
| Text.ReplaceAllShrinks | music.py:15 | a replacement no longer than the pattern never lengthens the text; it shortens it whenever the pattern occurs |
| Text.ReplaceAllEndsWithReplacement | music.py:105 | for a pattern that cannot overlap itself, a trailing occurrence is always rewritten, so the result ends with the replacement |
| Text.FirstLine | music.py:81 | `split('\n')[0]` is a prefix without a newline that stops at the first newline or at the end of the text |
| Text.SplitExt | music.py:89 | `os.path.splitext`: root and extension concatenate to the name; the extension is empty or a dot followed by no dot; leading dots do not start an extension |
| Text.SplitExtOfMp3 | music.py:88-89 | the stem of `title + ".mp3"` is the title, unless the title consists only of dots |
| UrlNormalizer.ConvertYoutubeMusicUrl | music.py:12-17 | the URL is changed exactly when it contains "music.youtube.com/playlist", and a changed URL is strictly shorter |
| UrlNormalizer.ConvertPlaylistUrl | music.py:14-15 | a playlist URL whose host is its only music host occurrence keeps its scheme, path and query; only the host becomes "www.youtube.com" |
| ErrorMessages.CleanErrorMessage | music.py:73-81 | "Private video" wins over "Video unavailable", which wins over "Incomplete data received", each giving its fixed message; otherwise the result is the text's first line, a newline-free prefix that is the whole text when it has no newline |
| Text.ReplaceFromTrailingLength | music.py:105 | a length bound: rewriting `x + pat` from position `i` gives at most `|x| - i + |rep|` characters, and strictly fewer when `|rep| < |pat|` and `x` holds another occurrence at or after `i`, and exactly that many when it holds none |
| Thumbnails.FirstExisting | music.py:101-103 | the index of the first extension whose candidate `title.ext` exists, with no candidate before it existing |
| Thumbnails.Lookup | music.py:99-109 | no path exactly when none of the four candidates exists; a returned path is an image name; a returned path that is not already in the folder is the `.jpg` converted from an existing `.webp` |
| Thumbnails.AfterLookup | music.py:104-107 | the folder after a lookup gains nothing, or only `title.jpg`, and only when the `.webp` was the first existing candidate |
| Thumbnails.LookupAfterLookup | music.py:99-109 | a lookup, with the JPEG it may write, leaves the lookup of every title, its own included, as it was |
| Thumbnails.LookupPriority | music.py:101-108 | when the i-th candidate exists and no earlier one does, the lookup returns that candidate, or the converted `.jpg` when it is the `.webp` |
| Thumbnails.ConversionTargetIsFresh | music.py:104-107 | the JPEG written for a `.webp` match is named `title.jpg`, which is known to be absent; the folder gains exactly that file |
| Thumbnails.LookupMonotone | music.py:99-109 | adding files to the folder never loses a match |
| Thumbnails.ConvertedNameIsOwnCandidate | music.py:102-105 | a converted JPEG's name is the `jpg` candidate of its own title and of no other title or extension |
| Thumbnails.ConvertedNameAsWritten | music.py:105 | `path.replace('.webp', '.jpg')` as written: never longer than `title.jpg`, and as long exactly when the title contains no ".webp" |
| Thumbnails.AsWrittenConversionEndsWithJpg | music.py:105 | as written, the converted name still ends in ".jpg" and is therefore swept like any image |
| Thumbnails.AsWrittenAgreesWithoutWebpInTitle | music.py:105 | as written and as intended give the same name for every title that does not contain ".webp" |
| Thumbnails.AsWrittenConversionOfWebpTitle | music.py:105 | as written, title "a.webp" converts to "a.jpg.jpg": both occurrences are rewritten |
| Thumbnails.AsWrittenConversionOverwritesAnotherCover | music.py:102-107 | with "a.webp.webp" and "a.jpg.jpg" in the folder, the lookup for "a.webp" reaches the `.webp` and, as written, writes over "a.jpg.jpg", the cover of title "a.jpg" |
| Thumbnails.SweptByStep | music.py:140-145 | one pass of the outer loop removes, among the files left by the earlier extensions, exactly those ending in the current extension |
| Thumbnails.Swept | music.py:137-149 | the swept folder is a subset of the folder, holds no image name, and keeps every other file |
| Thumbnails.SweptIgnoresAddedImages | music.py:137-149 | images added to the folder do not change what the sweep leaves; sweeping twice is sweeping once; an image-free folder is unchanged |
| Pipeline.RunJob | music.py:91-94 | one song: the folder gains at most its converted JPEG; the earlier embeds are kept; one embed is added exactly when the lookup finds a thumbnail, into the song's MP3 and with that thumbnail |
| Pipeline.RunJobs | music.py:87-95 | a pass over the songs in order never removes a file and performs no more embeds than there are songs |
| Pipeline.RunJobsEffects | music.py:87-95 | a pass only adds files, and each added file is the converted JPEG of one of the songs; there are no more embeds than songs, and every embed is of a song's MP3 with an image name |
| Pipeline.LookupAfterRun | music.py:87-95 | after a pass, every title's lookup is what it was in the starting folder |
| Pipeline.EmbedsOf | music.py:87-95 | the reference embeds, read off the starting folder: in song order, one per song whose thumbnail is found, with that thumbnail; no more than the songs |
| Pipeline.RunJobsEmbeds | music.py:87-95 | the embeds of a pass are exactly `EmbedsOf` of its starting folder |
| Pipeline.EmbedsOfMembers | music.py:91-94 | an embed is performed exactly when some song's MP3 and found thumbnail are its MP3 and image |
| Pipeline.SweptAfterRun | music.py:87-96 | the sweep after a pass leaves the same folder as a sweep of the folder the pass started from |
| Pipeline.MatchedJobIsEmbedded | music.py:91-94 | a song whose thumbnail is in the folder when the pass starts is embedded into its MP3, with that thumbnail, whatever the other songs |
| Pipeline.EmbeddedIffThumbnailPresent | music.py:87-95 | when songs sharing an MP3 share a title, a song's MP3 is embedded exactly when its thumbnail is found in the starting folder, and every embed into it carries that thumbnail |
| Pipeline.ListedMp3Embedded | music.py:87-94 | in the fallback, a listed MP3 is embedded exactly when its stem's thumbnail is in the folder, and always with that thumbnail |
| Pipeline.PlaylistSongEmbedded | music.py:48-58 | in the playlist branch, a processed entry's `title.mp3` is embedded exactly when that title's thumbnail is in the folder, and always with that thumbnail, even when titles repeat |
| Pipeline.ListingJobs | music.py:87-89 | the fallback's songs: no more than the listed names, each an ".mp3" name |
| Pipeline.ListingJobsAreTheMp3s | music.py:87-89 | the fallback's songs are exactly the listed names ending in ".mp3", each titled by its `splitext` stem |
| Pipeline.EntryStepFor | music.py:48-53 | a missing entry or one without a URL is skipped; every other entry is processed under its title, or "audio" when it has none; no entry stops the run; on present entries this agrees with the code as written |
| Pipeline.EntryStepAsWritten | music.py:49-53 | the entry test as written: it stops the run exactly on a missing entry, and skips exactly the present entries without a URL |
| Pipeline.MissingEntryCrashesAsWritten | music.py:49-50 | as written, a missing playlist entry raises in the skip message, and no present entry does |
| Pipeline.PlaylistJobs | music.py:48-54 | at most one song per entry, each with MP3 `title + ".mp3"` |
| Pipeline.PlaylistJobsAreTheEntries | music.py:48-54 | the playlist's songs are exactly its processed entries, in both directions, each with MP3 `title + ".mp3"` |
| Pipeline.PlaylistJobsAppend | music.py:48 | songs follow entry order: the songs of `first + second` are those of `first` followed by those of `second` |
| Pipeline.OutputFolder.EmbedThumbnail | music.py:111-135 | the embed is recorded; the folder's names are untouched |
| Pipeline.OutputFolder.FindThumbnail | music.py:99-109 | the loop over extensions returns `Lookup` of the folder it started with, and the folder gains exactly the returned path |
| Pipeline.OutputFolder.MatchAndEmbed | music.py:91-94 | the folder and the embeds move by one step of `RunJob` |
| Pipeline.OutputFolder.CleanupThumbnails | music.py:137-149 | the nested loops leave `Swept` of the folder, and the flag is set exactly when some image existed |
| Pipeline.OutputFolder.ProcessExistingFiles | music.py:83-97 | over any `os.listdir` order of the folder, the embeds are those of `RunJobs` over the listed MP3s in listing order, which equal `EmbedsOf` of the starting folder, and the folder ends as the sweep of the folder it started as |
| Pipeline.OutputFolder.ProcessPlaylist | music.py:47-60 | the embeds are `EmbedsOf` the processed entries' songs in order, read off the starting folder, and the folder is always swept |
| Pipeline.OutputFolder.ProcessSingleVideo | music.py:62-69 | the video is embedded when its thumbnail is found, and only then is the folder swept |
| Pipeline.OutputFolder.DownloadMp3 | music.py:19-71 | the downloader receives the normalised URL; a failed download reports its cleaned message and runs the fallback; otherwise the playlist or single-video branch runs, with "audio" as the default title |

## Left out

- The download itself (yt-dlp, ffmpeg) is a parameter. `Pipeline.FetchResult` is the error text, the playlist entries or the single video's title it produced; the MP3 files it writes are not modelled.
- Creating the output folder (`os.makedirs`) is not modelled; the folder is assumed to exist.
- Console output (colorama colours, every `print`) and the `input` prompt of the `__main__` block are not modelled.
- Pipeline.OutputFolder.EmbedThumbnail: records the call but not its internals (mutagen ID3 tags, APIC frame, reading the image). Its failure on a missing MP3 is not modelled either: that depends on what the download wrote, which is outside the model.
- Thumbnails.Lookup: models the corrected program. A `.webp` match yields `title.jpg`, not the as-written `path.replace('.webp', '.jpg')`; the as-written name is `Thumbnails.ConvertedNameAsWritten` (first finding).
- Pipeline.OutputFolder.FindThumbnail: models the corrected program. It writes and returns `title.jpg` for a `.webp` match, where the code as written rewrites every ".webp" in the path (first finding).
- Pipeline.OutputFolder.ProcessPlaylist: models the corrected program. A missing entry is skipped, where the code as written raises at music.py:50 and ends the run; the as-written test is `Pipeline.EntryStepAsWritten` (second finding).
- Thumbnails.ConversionTargetIsFresh: the PIL conversion of the `.webp` image to RGB JPEG is modelled only as the new file name appearing in the folder.
- Paths are bare file names; the folder path from `os.path.join` is left out. The as-written conversion would also rewrite a ".webp" inside the folder's own name, which the default folder "downloads" does not contain.
- `os.listdir` also returns subdirectory names; the folder is modelled as a set of plain file names. Failures of `os.remove` are not modelled.
- A playlist entry or video whose `title` key is present but `None` is not modelled. Titles are `Option<string>`, where a missing title defaults to "audio".

## Findings

| source | as written | input that shows it | evidently intended | confidence | as-written member | corrected member |
|---|---|---|---|---|---|---|
| music.py:105 | `path.replace('.webp', '.jpg')` rewrites every ".webp" in the path, not only the extension | title "a.webp" in a folder holding "a.webp.webp" and "a.jpg.jpg": the converted image is saved as "a.jpg.jpg", overwriting the cover of the song titled "a.jpg" | replace only the extension and write `title.jpg`, a name known to be absent | high, not executed | Thumbnails.AsWrittenConversionOverwritesAnotherCover | Thumbnails.ConversionTargetIsFresh |
| music.py:49-50 | a missing (`None`) playlist entry passes the `not entry` test, but the skip message then calls `entry.get`, which raises on `None` and ends the run | a playlist whose entries contain `None` | skip the missing entry like one without a URL | high, not executed | Pipeline.MissingEntryCrashesAsWritten | Pipeline.EntryStepFor |
