# osaka-bot image pool, modelled in Dafny

osaka-bot posts one picture a day to a Bluesky feed. Its pool of unused
pictures is a directory, `./images`. A posted picture is moved into a second
directory, `./uploaded`, so that it is not picked again. A picture may have a
sidecar file `<stem>.toml` next to it. The sidecar's `credit` field is read
when the picture is picked.

This project models the pool (`src/images.rs`) and one scheduled run, `post`
(`src/main.rs`).

- **Filesystem.** The filesystem is a class, `Files.FileSystem`. Its field
  `dirs` maps each directory name to a flat map from file name to contents.
  Its field `refused` is the set of paths whose rename the system refuses,
  and `unopenable` the set of existing paths it will not open for reading.
  It offers four operations: `Exists`, `CanOpen`, `Rename` (specified by
  `RenameOutcome` and `AfterRename`) and `Glob` (the directory walk behind a
  pattern like `*.png`).
- **File names.** `PathNames.FileStem` follows Rust's `Path::file_stem`: the
  name is split at its last dot, a name whose only dot is its first
  character (such as `.png`) is its own stem, and `..` is its own stem.
- **Pool.** The pool is the datatype `ImagePool.Images`, which holds the
  source and archive directory names (Rust's `Images`). The selected
  candidate is `ImagePool.Image` (path, sidecar path, credit).
  `GetRandomImage` reads the filesystem and changes nothing. `MoveFiles`
  makes the two renames.
- **Remote feed.** The feed is `Feed.Agent`: the blobs uploaded and the
  records created so far, plus whether the server accepts record creation.
  `Bot.Post` is the run: select, return early if there is nothing, embed,
  one record attempt, archive.
- **Logging.** What the program prints to stdout or stderr is returned as a
  `seq<Diagnostics.LogLine>`.
- **Foreign calls as parameters.** UTF-8 decoding of a sidecar (`utf8`) and
  the TOML parse into a `credit` string (`parseCredit`) are function-valued
  parameters. The random pick is a nondeterministic choice of an index into
  the list of candidates.

Behaviour of the code that the model keeps:

- A run archives the picture even when record creation failed
  (src/main.rs:101-105), so a failed post does not leave the picture in the
  pool.
- The record's text is empty and it has no facets or tags
  (src/main.rs:88-98). The credit that selection reads never reaches the
  post.
- An image file that exists but cannot be opened gives an embed with no
  picture, and that embed is still posted (src/images.rs:117, 139-143). The
  run goes on to archive the file. `Image.MakeIntoEmbed` and `Bot.Post`
  cover this case through the `unopenable` set.
- src/main.rs:105 calls `images.move_image`, which is not defined anywhere.
  The only archiving method is `move_files` (src/images.rs:47), and the
  model calls that.

## Model

| member | source | states |
|---|---|---|
| Files.FileSystem.Exists | src/images.rs:93 | `Path::exists`: true exactly when the directory exists and holds a file of that name |
| Files.FileSystem.CanOpen | src/images.rs:117 | `File::open` succeeds exactly when the file exists and is not one the system refuses to open |
| Files.FileSystem.Rename | src/images.rs:52-63 | one `fs::rename`: the result is the modelled outcome (refused, missing source or missing target directory fail) and the directories become exactly the modelled state after it; nothing else changes |
| ImagePool.IsImageName | src/images.rs:71-73 | a name is an image name exactly when it ends in `.` followed by one of the three extensions `png`, `jpg`, `jpeg` |
| ImagePool.SidecarName | src/images.rs:90 | the sidecar name ends in `.toml`, and what comes before that is the image name's stem |
| ImagePool.Images.SidecarOf | src/images.rs:90 | the sidecar lives in the source directory, under the sidecar name of the image |
| ImagePool.Images.Destination | src/images.rs:51-62 | the destination is in the archive directory, under the same file name |
| ImagePool.SidecarCredit | src/images.rs:93-100 | no credit without the sidecar file; when the sidecar exists and its text decodes, the credit is exactly the parse of that text, and otherwise there is none |
| Bot.PostRecord | src/main.rs:88-98 | the record the run creates has empty text, no facets, no tags, and exactly the embed it is given |
| PathNames.LastDot | src/images.rs:90 | the result is the position of a '.' with no '.' after it, and there is no result exactly when the name has no '.' |
| PathNames.FileStem | src/images.rs:90 | the stem is a prefix of the name; when it is not the whole name, it is non-empty and the name continues with the last '.' of the name; a name without '.' is its own stem |
| PathNames.FileStemOfExtension | src/images.rs:90 | the stem of `base.ext` (ext without dots) is `base`, and `.ext` alone is its own stem |
| ImagePool.SidecarIsNotImage | src/images.rs:71-73 | a sidecar name never matches an image pattern, so an image is never its own sidecar |
| ImagePool.SidecarOfImageName | src/images.rs:90-91 | the sidecar of `<base>.<ext>` is `<base>.toml`, or `.<ext>.toml` when base is empty |
| ImagePool.SharedSidecar | src/images.rs:90-94 | `x.png`, `x.jpg` and `x.jpeg` all look for the same sidecar `x.toml` |
| Files.Moved | src/images.rs:52 | after a rename the target holds the source's contents (replacing any old file), the source is gone unless it is the target, and every other path and the set of directories are unchanged |
| Files.RenameOutcome | src/images.rs:52-54 | the model's definition of the rename outcome, stated in the contract: a rename succeeds exactly when the source is not refused, the source file exists and the target directory exists |
| Files.AfterRename | src/images.rs:52-54 | a failed rename changes nothing; a successful one moves the file; no other path changes either way, and no file other than the target appears or changes contents |
| Files.RenameKeepsDisjoint | src/images.rs:51-54 | renaming a file into another directory under the same name keeps the two directories' name sets disjoint |
| Files.FileSystem.Glob | src/images.rs:71-78 | the paths returned are exactly the files directly in the directory whose names end in the suffix, each once; a missing directory yields none |
| ImagePool.Images.Pool | src/images.rs:71-78 | the model's definition of the glob over the three patterns, stated in the contract: a path is a candidate exactly when it is a file directly in the source directory whose name ends in `.png`, `.jpg` or `.jpeg` (case-sensitive) |
| ImagePool.Images.GetRandomImage | src/images.rs:70-110 | no result exactly when the pool is empty; otherwise the image is one of the candidates; its sidecar path is recorded exactly when `<source>/<stem>.toml` exists; its credit is the TOML parse of that sidecar's text when the sidecar is recorded, and absent otherwise; a credit implies a sidecar; no file changes (the method has no modifies clause) |
| ImagePool.Image.MakeIntoEmbed | src/images.rs:114-144 | always returns an embed; an image file that exists and can be opened is uploaded once with its current contents and the embed holds that one blob with empty alt text; otherwise nothing is uploaded and the embed is empty |
| ImagePool.Images.Archived | src/images.rs:47-68 | archiving changes no path other than the image, the recorded sidecar and their two destinations, creates or removes no directory, and outside the archive directory only removes files |
| ImagePool.Images.ArchiveLog | src/images.rs:52-66 | archiving reports only move failures, one line per failed rename (so at most two, and at most one without a sidecar); nothing is reported exactly when the image rename and (if recorded) the sidecar rename after it both succeed; a failed image rename is reported first and a failed sidecar rename last, each with its own paths and error |
| ImagePool.Images.MoveFiles | src/images.rs:47-68 | the new directory state is the image rename into `<uploaded>/<name>` followed by the sidecar rename when one was recorded; each failure only becomes a log line |
| ImagePool.Images.ArchiveMovesImage | src/images.rs:47-54 | when the image can be renamed, it leaves the source (hence the pool, so it cannot be selected again) and is in the archive under the same name with the same contents, whatever the sidecar rename does |
| ImagePool.Images.ArchiveMovesSidecar | src/images.rs:56-66 | a recorded sidecar that can be renamed ends up in the archive under its own name with the same contents, even when the image rename failed |
| ImagePool.Images.ArchiveShrinksPool | src/images.rs:47-68 | after archiving, both directories still exist, the pool is a subset of the old pool, and every remaining candidate's sidecar can still be opened and is still readable text |
| ImagePool.Images.ArchiveKeepsDisjoint | src/images.rs:47-68 | if no file name is in both the source and the archive before archiving, none is after |
| Feed.Agent.UploadBlob | src/images.rs:120-127 | the blob is appended to the server's blobs and the returned reference points at it |
| Feed.Agent.CreateRecord | src/main.rs:87-99 | one attempt: it succeeds exactly when the server accepts, and then adds exactly that record; otherwise nothing changes |
| Bot.Post | src/main.rs:76-106 | an empty pool means no upload, no record and no file change; otherwise one candidate is chosen; its current contents are uploaded once unless it cannot be opened; at most one record is added (empty text, no facets or tags, and either that blob or, for an unopenable file, an empty embed); the directories end up exactly as archiving that image leaves them whether or not the record was created, and the log holds the post failure (if any) followed by the move failures; if the image could be renamed it is no longer in the pool and is in the archive with the contents it had |
| Bot.ConsecutiveRuns | src/main.rs:63-70 | over two firings of the daily job, the second never selects the image the first archived (when its rename was allowed), selects only images that were in the pool before the first, and finds nothing if the first found nothing |

## Left out

- `get_agent` (src/main.rs:12-54) is not modelled. Login, environment variables and the `config.json` session file are authentication and I/O.
- `main` (src/main.rs:57-74) is not modelled. The cron schedule, the tokio runtime and the Ctrl+C wait are scheduling plumbing. `Bot.Post` is one firing of the job.
- `Images::default` (src/images.rs:26-44) creates the directories and panics if it cannot. The model takes `Images.Ready` (both directories exist and are distinct) as the precondition of `Post`. `DefaultImages` holds the two names.
- Images.GetRandomImage: the panic of `read_to_string(...).unwrap()` on a sidecar that cannot be read as text is not modelled. `SidecarsReadable` is a precondition instead: every candidate's sidecar that exists can be opened (it is not in `unopenable`) and decodes as text.
- Images.GetRandomImage: the glob crate sorts each pattern's matches; `Glob` returns them in an unspecified order. This does not change which images can be picked.
- Images.GetRandomImage: entries that glob drops as errors (`flatten`) and subdirectories whose names match a pattern are not modelled. A directory holds only files.
- Images.GetRandomImage: the random distribution of `choose` is not modelled. The pick is any index, with no uniformity claim.
- Images.GetRandomImage: nothing is modelled between the `exists` check and the read of the sidecar. There is a single process.
- Image.MakeIntoEmbed: the panics of `read_to_end(...).expect` and `upload_blob(...).expect` are not modelled. The upload always succeeds. Why a file cannot be opened is not modelled; the `unopenable` set says which ones.
- Feed.Agent.CreateRecord: only one kind of failure is modelled, `RequestFailed`, controlled by the server's `accepting` flag. The network cause of the error is not modelled.
- The record fields `created_at` (a clock read), `entities`, `labels`, `langs` and `reply` are not modelled. They are a time stamp or always `None`. The `aspect_ratio` of the image data, always `None`, is not modelled either.
- Files.RenameOutcome: every OS-level rename failure other than a missing file or directory is modelled by the `refused` set. Filesystem-specific rules (crossing devices, renaming onto a directory) are not modelled.
- Directory names are opaque keys. Path normalisation (`./images` versus `images`) and the lossy UTF-8 conversion of file names (`to_string_lossy`) are not modelled.
- TOML parsing and UTF-8 decoding are the `parseCredit` and `utf8` parameters. Their internals are not modelled.
- Concurrency is not modelled. Overlapping runs and other processes touching the directories are out of scope.
