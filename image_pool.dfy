/**
  The image pool: selection of a random candidate from the source directory,
  with its optional `.toml` sidecar and credit, and archiving of a posted
  image (and sidecar) into the archive directory.
*/
module ImagePool {
  import opened Wrappers
  import opened PathNames
  import opened Files
  import opened Feed
  import opened Diagnostics

  /** The extensions of the three glob patterns, in the order they are chained. */
  const ImageExtensions: seq<string> := ["png", "jpg", "jpeg"]

  /** The names that the patterns `*.png`, `*.jpg` and `*.jpeg` match; case matters. */
  function IsImageName(name: string): (r: bool)
    ensures r <==> exists i :: 0 <= i < |ImageExtensions| && HasSuffix(name, "." + ImageExtensions[i])
  {
    assert "." + ImageExtensions[0] == ".png" && "." + ImageExtensions[1] == ".jpg" && "." + ImageExtensions[2] == ".jpeg";
    HasSuffix(name, ".png") || HasSuffix(name, ".jpg") || HasSuffix(name, ".jpeg")
  }

  /** `<stem>.toml`: the name of the sidecar that an image of this name looks for. */
  function SidecarName(imageName: string): (r: string)
    ensures HasSuffix(r, ".toml") && r[..|r| - 5] == FileStem(imageName)
  {
    FileStem(imageName) + ".toml"
  }

  /** A sidecar name is never an image name, so an image is never its own sidecar. */
  lemma SidecarIsNotImage(name: string)
    ensures !IsImageName(SidecarName(name))
    ensures IsImageName(name) ==> SidecarName(name) != name
  {
    var s := SidecarName(name);
    assert s[|s| - 1] == 'l';
    if IsImageName(name) {
      assert name[|name| - 1] == 'g';
    }
  }

  /**
    The sidecar of `<base>.<ext>` is `<base>.toml`, except that a name which
    is only a dot and an extension keeps the extension in its stem.
  */
  lemma SidecarOfImageName(base: string, ext: string)
    requires ext != "" && NoDot(ext)
    ensures SidecarName(base + "." + ext) == (if base == "" then "." + ext else base) + ".toml"
  {
    FileStemOfExtension(base, ext);
  }

  /**
    Images that differ only in their extension share one sidecar: `x.png`,
    `x.jpg` and `x.jpeg` all look for `x.toml`.
  */
  lemma SharedSidecar(base: string)
    requires base != ""
    ensures SidecarName(base + ".png") == base + ".toml"
    ensures SidecarName(base + ".jpg") == base + ".toml"
    ensures SidecarName(base + ".jpeg") == base + ".toml"
  {
    SidecarOfImageName(base, "png");
    assert base + ".png" == base + "." + "png";
    SidecarOfImageName(base, "jpg");
    assert base + ".jpg" == base + "." + "jpg";
    SidecarOfImageName(base, "jpeg");
    assert base + ".jpeg" == base + "." + "jpeg";
  }

  /** The credit a sidecar file yields: the parse of its text, if it exists and is text. */
  function SidecarCredit(dirs: Dirs, t: Path, utf8: Bytes -> Option<string>, parseCredit: string -> Option<string>): (r: Option<string>)
    ensures !Present(dirs, t) ==> r.None?
    ensures r.Some? ==> Present(dirs, t) && utf8(Contents(dirs, t)).Some? && r == parseCredit(utf8(Contents(dirs, t)).value)
    ensures Present(dirs, t) && utf8(Contents(dirs, t)).Some? ==> r == parseCredit(utf8(Contents(dirs, t)).value)
  {
    if Present(dirs, t) && utf8(Contents(dirs, t)).Some? then parseCredit(utf8(Contents(dirs, t)).value) else None
  }

  /** A selected image: its file, its sidecar when one existed, and the credit read from it. */
  datatype Image = Image(path: Path, tomlPath: Option<Path>, credit: Option<string>) {

    /**
      `make_into_embed`: if the image file can be opened, its bytes are
      uploaded and the embed holds that one blob with empty alt text;
      otherwise (missing or unreadable file) the embed holds no picture.
      Either way an embed is returned.
    */
    method MakeIntoEmbed(fs: FileSystem, agent: Agent) returns (embed: Option<Embed>)
      modifies agent`blobs
      ensures embed.Some?
      ensures fs.CanOpen(path) ==>
        agent.blobs == old(agent.blobs) + [Contents(fs.dirs, path)] &&
        embed.value == ImagesEmbed([ImageData("", BlobRef(|old(agent.blobs)|))])
      ensures !fs.CanOpen(path) ==>
        agent.blobs == old(agent.blobs) && embed.value == ImagesEmbed([])
    {
      var images := [];
      if fs.CanOpen(path) {
        var buf := fs.dirs[path.dir][path.name];
        var output := agent.UploadBlob(buf);
        images := images + [ImageData("", output)];
      }
      embed := Some(ImagesEmbed(images));
    }
  }

  /** The pool: its source directory and its archive directory. */
  datatype Images = Images(path: string, uploadedPath: string) {

    /** What construction guarantees: both directories exist, and they are two directories. */
    predicate Ready(dirs: Dirs) {
      path in dirs && uploadedPath in dirs && path != uploadedPath
    }

    /** The candidates: the files directly in the source directory with an image name. */
    function Pool(dirs: Dirs): (r: set<Path>)
      ensures forall p :: p in r <==> p.dir == path && Present(dirs, p) && IsImageName(p.name)
    {
      if path in dirs then set n | n in dirs[path] && IsImageName(n) :: Path(path, n) else {}
    }

    /** `<source>/<stem>.toml`. */
    function SidecarOf(imageName: string): (r: Path)
      ensures r.dir == path && r.name == SidecarName(imageName)
    {
      Path(path, SidecarName(imageName))
    }

    /** `<uploaded>/<file name>`. */
    function Destination(p: Path): (r: Path)
      ensures r.dir == uploadedPath && r.name == p.name
    {
      Path(uploadedPath, p.name)
    }

    /** An image as selection from this pool builds it. */
    predicate WellFormed(img: Image) {
      && img.path.dir == path
      && IsImageName(img.path.name)
      && (img.tomlPath.Some? ==> img.tomlPath.value == SidecarOf(img.path.name))
    }

    /** Every candidate's sidecar, when it exists, can be opened and holds valid text. */
    ghost predicate SidecarsReadable(dirs: Dirs, unopenable: set<Path>, utf8: Bytes -> Option<string>) {
      forall p :: p in Pool(dirs) && Present(dirs, SidecarOf(p.name)) ==>
        SidecarOf(p.name) !in unopenable && utf8(Contents(dirs, SidecarOf(p.name))).Some?
    }

    /**
      `get_random_image`: lists the candidates (the `.png`, then the `.jpg`,
      then the `.jpeg` files), picks one of them, and looks up its sidecar.
      `utf8` decodes a file as text; `parseCredit` is the TOML parse, giving
      the `credit` string field when the document has one.
    */
    method GetRandomImage(fs: FileSystem, utf8: Bytes -> Option<string>, parseCredit: string -> Option<string>)
      returns (r: Option<Image>)
      requires SidecarsReadable(fs.dirs, fs.unopenable, utf8)
      ensures r.None? <==> Pool(fs.dirs) == {}
      ensures r.Some? ==> r.value.path in Pool(fs.dirs) && WellFormed(r.value)
      ensures r.Some? ==> (r.value.tomlPath.Some? <==> Present(fs.dirs, SidecarOf(r.value.path.name)))
      ensures r.Some? && r.value.credit.Some? ==> r.value.tomlPath.Some?
      ensures r.Some? && r.value.tomlPath.Some? ==>
        r.value.credit == SidecarCredit(fs.dirs, r.value.tomlPath.value, utf8, parseCredit)
    {
      var png := fs.Glob(path, ".png");
      var jpg := fs.Glob(path, ".jpg");
      var jpeg := fs.Glob(path, ".jpeg");
      var images := png + jpg + jpeg;
      forall p | p in Pool(fs.dirs)
        ensures p in images
      {
        if HasSuffix(p.name, ".png") {
          assert p in png;
        } else if HasSuffix(p.name, ".jpg") {
          assert p in jpg;
        } else {
          assert p in jpeg;
        }
      }
      if |images| == 0 {
        return None;
      }
      var i :| 0 <= i < |images|;
      var image := images[i];
      var credit := None;
      var tomlPath := None;
      var tomlBuf := SidecarOf(image.name);
      if fs.Exists(tomlBuf) {
        tomlPath := Some(tomlBuf);
        assert fs.CanOpen(tomlBuf);
        var value := utf8(fs.dirs[tomlBuf.dir][tomlBuf.name]).value;
        var parsed := parseCredit(value);
        if parsed.Some? {
          credit := Some(parsed.value);
        }
      }
      r := Some(Image(image, tomlPath, credit));
    }

    /**
      The directories after `move_files`: the image is renamed into the
      archive, then the sidecar too when one was recorded, each under its own
      file name. Only those four paths can change.
    */
    function Archived(dirs: Dirs, refused: set<Path>, img: Image): (r: Dirs)
      ensures r.Keys == dirs.Keys
      ensures forall p ::
        p != img.path && p != Destination(img.path) &&
        (img.tomlPath.Some? ==> p != img.tomlPath.value && p != Destination(img.tomlPath.value)) ==>
        SameAt(dirs, r, p)
      ensures forall p: Path :: p.dir != uploadedPath && Present(r, p) ==>
        Present(dirs, p) && Contents(r, p) == Contents(dirs, p)
    {
      var afterImage := AfterRename(dirs, refused, img.path, Destination(img.path));
      match img.tomlPath
      case None => afterImage
      case Some(t) => AfterRename(afterImage, refused, t, Destination(t))
    }

    /** What `move_files` reports: one line for each rename that failed, in order. */
    function ArchiveLog(dirs: Dirs, refused: set<Path>, img: Image): (r: seq<LogLine>)
      ensures |r| <= 2 && forall l :: l in r ==> l.FailedToMove?
      ensures RenameOutcome(dirs, refused, img.path, Destination(img.path)).Fail? ==>
        |r| > 0 && r[0] == FailedToMove(img.path, Destination(img.path), RenameOutcome(dirs, refused, img.path, Destination(img.path)).error)
      ensures img.tomlPath.None? ==> |r| <= 1
      ensures |r| ==
        (if RenameOutcome(dirs, refused, img.path, Destination(img.path)).Fail? then 1 else 0) +
        (if img.tomlPath.Some? &&
            RenameOutcome(AfterRename(dirs, refused, img.path, Destination(img.path)), refused,
                          img.tomlPath.value, Destination(img.tomlPath.value)).Fail? then 1 else 0)
      ensures r == [] <==>
        && RenameOutcome(dirs, refused, img.path, Destination(img.path)).Pass?
        && (img.tomlPath.Some? ==>
             RenameOutcome(AfterRename(dirs, refused, img.path, Destination(img.path)), refused,
                           img.tomlPath.value, Destination(img.tomlPath.value)).Pass?)
      ensures img.tomlPath.Some? ==>
        var t := img.tomlPath.value;
        var o := RenameOutcome(AfterRename(dirs, refused, img.path, Destination(img.path)), refused, t, Destination(t));
        o.Fail? ==> |r| > 0 && r[|r| - 1] == FailedToMove(t, Destination(t), o.error)
    {
      var dest := Destination(img.path);
      var imageOutcome := RenameOutcome(dirs, refused, img.path, dest);
      var imageLines := if imageOutcome.Fail? then [FailedToMove(img.path, dest, imageOutcome.error)] else [];
      match img.tomlPath
      case None => imageLines
      case Some(t) =>
        var afterImage := AfterRename(dirs, refused, img.path, dest);
        var tomlOutcome := RenameOutcome(afterImage, refused, t, Destination(t));
        imageLines + if tomlOutcome.Fail? then [FailedToMove(t, Destination(t), tomlOutcome.error)] else []
    }

    /**
      `move_files`: attempts both renames independently; a failure is only
      reported in the returned log lines, never to the caller.
    */
    method MoveFiles(fs: FileSystem, image: Image) returns (log: seq<LogLine>)
      modifies fs`dirs
      ensures fs.dirs == Archived(old(fs.dirs), fs.refused, image)
      ensures log == ArchiveLog(old(fs.dirs), fs.refused, image)
    {
      var dest := Destination(image.path);
      var e := fs.Rename(image.path, dest);
      log := [];
      if e.Fail? {
        log := log + [FailedToMove(image.path, dest, e.error)];
      }
      if image.tomlPath.Some? {
        var t := image.tomlPath.value;
        var tomlDest := Destination(t);
        var f := fs.Rename(t, tomlDest);
        if f.Fail? {
          log := log + [FailedToMove(t, tomlDest, f.error)];
        }
      }
    }

    /**
      When the image can be renamed, archiving takes it out of the pool and
      leaves it, with the same contents, under the same name in the archive;
      the sidecar rename that follows does not disturb it. So no later
      selection can return it again.
    */
    lemma ArchiveMovesImage(dirs: Dirs, refused: set<Path>, img: Image)
      requires Ready(dirs) && WellFormed(img)
      requires Present(dirs, img.path) && img.path !in refused
      ensures var after := Archived(dirs, refused, img);
        && !Present(after, img.path)
        && img.path !in Pool(after)
        && Present(after, Destination(img.path))
        && Contents(after, Destination(img.path)) == Contents(dirs, img.path)
    {
    }

    /**
      A recorded sidecar that can be renamed ends up in the archive, whether
      or not the image rename before it succeeded.
    */
    lemma ArchiveMovesSidecar(dirs: Dirs, refused: set<Path>, img: Image)
      requires Ready(dirs) && WellFormed(img) && img.tomlPath.Some?
      requires Present(dirs, img.tomlPath.value) && img.tomlPath.value !in refused
      ensures var after, t := Archived(dirs, refused, img), img.tomlPath.value;
        && !Present(after, t)
        && Present(after, Destination(t))
        && Contents(after, Destination(t)) == Contents(dirs, t)
    {
    }

    /**
      Archiving adds nothing to the pool and alters no file left in it, so
      every remaining candidate's sidecar is still readable, and a later
      selection has only old candidates to choose from.
    */
    lemma ArchiveShrinksPool(dirs: Dirs, refused: set<Path>, img: Image, unopenable: set<Path>, utf8: Bytes -> Option<string>)
      requires Ready(dirs) && WellFormed(img) && SidecarsReadable(dirs, unopenable, utf8)
      ensures var after := Archived(dirs, refused, img);
        && Ready(after)
        && Pool(after) <= Pool(dirs)
        && SidecarsReadable(after, unopenable, utf8)
    {
    }

    /** Archiving keeps the source and archive directories free of common names. */
    lemma ArchiveKeepsDisjoint(dirs: Dirs, refused: set<Path>, img: Image)
      requires Ready(dirs) && WellFormed(img)
      requires dirs[path].Keys !! dirs[uploadedPath].Keys
      ensures var after := Archived(dirs, refused, img); after[path].Keys !! after[uploadedPath].Keys
    {
    }
  }

  /** The pool as the program constructs it. */
  const DefaultImages: Images := Images("./images", "./uploaded")
}
