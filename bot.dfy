/**
  One scheduled run of the bot: select an image, post it, archive it.
*/
module Bot {
  import opened Wrappers
  import opened Files
  import opened Feed
  import opened Diagnostics
  import opened ImagePool

  /** The record a run posts: empty text, the image embed, no facets and no tags. */
  function PostRecord(embed: Option<Embed>): (r: Record)
    ensures r.text == "" && r.embed == embed && r.facets.None? && r.tags.None?
  {
    Record("", embed, None, None)
  }

  /**
    `post`: selects one candidate and returns at once if there is none;
    otherwise uploads it, makes a single attempt to create the record,
    reports a failure of that attempt, and archives the image (and its
    sidecar) whether or not the record was created. The selected image is
    returned so that callers can speak about it; `log` is what the run writes.
  */
  method Post(agent: Agent, images: Images, fs: FileSystem, utf8: Bytes -> Option<string>, parseCredit: string -> Option<string>)
    returns (selected: Option<Image>, log: seq<LogLine>)
    requires images.Ready(fs.dirs)
    requires images.SidecarsReadable(fs.dirs, fs.unopenable, utf8)
    modifies fs`dirs, agent`blobs, agent`records
    // Selection.
    ensures selected.None? <==> images.Pool(old(fs.dirs)) == {}
    ensures selected.Some? ==> selected.value.path in images.Pool(old(fs.dirs)) && images.WellFormed(selected.value)
    ensures selected.Some? ==>
      (selected.value.tomlPath.Some? <==> Present(old(fs.dirs), images.SidecarOf(selected.value.path.name)))
    // Nothing to post: nothing happens.
    ensures selected.None? ==>
      fs.dirs == old(fs.dirs) && agent.blobs == old(agent.blobs) && agent.records == old(agent.records) && log == []
    // The image is uploaded as it was when selected, unless it cannot be opened.
    ensures selected.Some? ==>
      agent.blobs == old(agent.blobs) + (if selected.value.path in fs.unopenable then [] else [Contents(old(fs.dirs), selected.value.path)])
    // At most one record: the uploaded blob (or an empty embed), empty text, no facets or tags.
    ensures selected.Some? ==>
      var pictures := if selected.value.path in fs.unopenable then [] else [ImageData("", BlobRef(|old(agent.blobs)|))];
      agent.records == old(agent.records) + (if agent.accepting then [PostRecord(Some(ImagesEmbed(pictures)))] else [])
    // Archived whatever the record attempt gave, and nothing else changes.
    ensures selected.Some? ==> fs.dirs == images.Archived(old(fs.dirs), fs.refused, selected.value)
    ensures selected.Some? && selected.value.path !in fs.refused ==>
      && selected.value.path !in images.Pool(fs.dirs)
      && Present(fs.dirs, images.Destination(selected.value.path))
      && Contents(fs.dirs, images.Destination(selected.value.path)) == Contents(old(fs.dirs), selected.value.path)
    // A failed record is reported, then the archive failures.
    ensures selected.Some? ==> log == (if agent.accepting then [] else [FailedToPost(RequestFailed)]) +
                                      images.ArchiveLog(old(fs.dirs), fs.refused, selected.value)
  {
    selected := images.GetRandomImage(fs, utf8, parseCredit);
    if selected.None? {
      return selected, [];
    }
    var image := selected.value;
    assert Present(fs.dirs, image.path);
    var embed := image.MakeIntoEmbed(fs, agent);
    var record := agent.CreateRecord(PostRecord(embed));
    assert record.Fail? <==> !agent.accepting;
    assert record.Fail? ==> record.error == RequestFailed;
    var posted := if record.Fail? then [FailedToPost(record.error)] else [];
    ghost var before := fs.dirs;
    var moved := images.MoveFiles(fs, image);
    log := posted + moved;
    if image.path !in fs.refused {
      images.ArchiveMovesImage(before, fs.refused, image);
    }
  }

  /**
    Two firings of the scheduled job, one after the other. An image whose
    rename the system allows is never posted twice, and a run that found
    nothing leaves nothing for the next one.
  */
  method ConsecutiveRuns(agent: Agent, images: Images, fs: FileSystem, utf8: Bytes -> Option<string>, parseCredit: string -> Option<string>)
    returns (first: Option<Image>, second: Option<Image>)
    requires images.Ready(fs.dirs)
    requires images.SidecarsReadable(fs.dirs, fs.unopenable, utf8)
    modifies fs`dirs, agent`blobs, agent`records
    ensures first.Some? && first.value.path !in fs.refused && second.Some? ==> second.value.path != first.value.path
    ensures first.None? ==> second.None?
    ensures second.Some? ==> second.value.path in images.Pool(old(fs.dirs))
  {
    ghost var start := fs.dirs;
    var log;
    first, log := Post(agent, images, fs, utf8, parseCredit);
    if first.Some? {
      images.ArchiveShrinksPool(start, fs.refused, first.value, fs.unopenable, utf8);
    }
    second, log := Post(agent, images, fs, utf8, parseCredit);
  }
}
