/**
  The remote social feed as the bot sees it through its authenticated agent:
  blob uploads and feed-post records. Only what the bot calls is modelled.
*/
module Feed {
  import opened Wrappers
  import opened Files

  /** The reference an upload returns: here, the position of the blob in upload order. */
  datatype BlobRef = BlobRef(index: nat)

  /** One picture of an image embed: alt text and the uploaded blob. */
  datatype ImageData = ImageData(alt: string, image: BlobRef)

  /** An image embed: the list of pictures attached to a post. */
  datatype Embed = ImagesEmbed(images: seq<ImageData>)

  /** A rich-text annotation of a post's text (a mention, a link or a tag). */
  datatype Facet = Facet(byteStart: nat, byteEnd: nat, feature: string)

  /** The fields of a feed post that the bot sets. */
  datatype Record = Record(text: string, embed: Option<Embed>, facets: Option<seq<Facet>>, tags: Option<seq<string>>)

  datatype PublishError = RequestFailed

  /** The authenticated client and the server state it changes. */
  class Agent {
    /** Every blob uploaded so far, in order. */
    var blobs: seq<Bytes>
    /** Every record created so far, in order. */
    var records: seq<Record>
    /** Whether the server currently accepts record creation. */
    var accepting: bool

    /** `upload_blob`: the blob is stored and a reference to it returned. */
    method UploadBlob(data: Bytes) returns (b: BlobRef)
      modifies this`blobs
      ensures blobs == old(blobs) + [data]
      ensures b == BlobRef(|old(blobs)|) && blobs[b.index] == data
    {
      b := BlobRef(|blobs|);
      blobs := blobs + [data];
    }

    /** `create_record`: one attempt, which adds the record or fails without effect. */
    method CreateRecord(record: Record) returns (r: Outcome<PublishError>)
      modifies this`records
      ensures r.Pass? <==> accepting
      ensures records == if accepting then old(records) + [record] else old(records)
    {
      if accepting {
        records := records + [record];
        r := Pass;
      } else {
        r := Fail(RequestFailed);
      }
    }
  }
}
