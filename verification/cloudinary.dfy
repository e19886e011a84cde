/**
 * The image host as the book handlers use it: `uploader.upload(payload)` and
 * `uploader.destroy(publicId)`. What the host does with a call is left uninterpreted (two
 * functions fixed when the adapter is built); the adapter keeps the log of calls it was given,
 * so that callers can state which calls happened and in what order.
 */
module Cloudinary {

  datatype UploadResult = Uploaded(secureUrl: string) | UploadFailed(message: string)

  datatype Call = UploadCall(payload: string) | DestroyCall(publicId: string)

  class Uploader {
    /** The host's answer to an upload. */
    const upload: string -> UploadResult
    /** Whether the host accepts a destroy for a public id (otherwise the call throws). */
    const destroySucceeds: string -> bool
    /** Every call made so far, oldest first. */
    var calls: seq<Call>

    constructor (upload: string -> UploadResult, destroySucceeds: string -> bool)
      ensures this.upload == upload && this.destroySucceeds == destroySucceeds
      ensures calls == []
    {
      this.upload := upload;
      this.destroySucceeds := destroySucceeds;
      calls := [];
    }

    method Upload(payload: string) returns (r: UploadResult)
      modifies this
      ensures r == upload(payload)
      ensures calls == old(calls) + [UploadCall(payload)]
    {
      r := upload(payload);
      calls := calls + [UploadCall(payload)];
    }

    method Destroy(publicId: string) returns (ok: bool)
      modifies this
      ensures ok == destroySucceeds(publicId)
      ensures calls == old(calls) + [DestroyCall(publicId)]
    {
      ok := destroySucceeds(publicId);
      calls := calls + [DestroyCall(publicId)];
    }
  }
}
