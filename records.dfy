/**
 * The values the two handlers of Functions/savePhoto.js exchange with their
 * callers and with the metadata table.
 */
module Records {
  import opened Wrappers
  import opened Naming

  type Bytes = seq<bv8>

  /** One file of the parsed multipart body; a part may come without a filename. */
  datatype FilePart = FilePart(filename: Option<string>, content: Bytes)

  /** The parsed multipart body of an upload: its files and its three form fields. */
  datatype Upload = Upload(files: seq<FilePart>, comment: string, topic: string, posterName: string)

  /** The item written to the photos table, keyed by `ExternalImageId`. */
  datatype PhotoRecord = PhotoRecord(
    externalImageId: string,
    imageUrl: string,
    comments: seq<string>,
    topic: string,
    posterName: string,
    timestamp: string)

  /**
   * Why a handler answered with its error response. Both handlers collapse
   * every failure into one generic 500 answer; the kinds are kept apart here
   * so that contracts can say which step failed.
   */
  datatype Failure =
    | NoFiles            // the multipart body held no file
    | MissingFilename    // the first file had no filename, so sanitising it throws
    | BlobPutFailed      // the bucket rejected the object
    | RecordPutFailed    // the photos table rejected the item
    | FaceIndexFailed    // the face collection rejected the image
    | FaceSearchFailed   // searching the face collection failed
    | LookupFailed       // reading a matched item from the photos table failed

  /**
   * The record an upload creates under `key`: it carries the key, a URL
   * that resolves back to that key in the bucket, a comment list holding
   * just the upload's comment, and the upload's topic and poster.
   */
  function NewRecord(bucket: string, key: string, upload: Upload, now: string): (rec: PhotoRecord)
    ensures rec.externalImageId == key
    ensures KeyOfUrl(bucket, rec.imageUrl) == Some(key)
    ensures |rec.comments| == 1 && rec.comments[0] == upload.comment
    ensures rec.topic == upload.topic && rec.posterName == upload.posterName && rec.timestamp == now
  {
    UrlRoundTrip(bucket, key);
    PhotoRecord(key, ImageUrl(bucket, key), [upload.comment], upload.topic, upload.posterName, now)
  }
}
