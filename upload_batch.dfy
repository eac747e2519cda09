/** The `POST /upload` handler of index.js:36-77 with its I/O made explicit:
    an empty or missing file list is refused before any work, otherwise each
    file gets a key, a PutObject request and, when every request succeeds,
    one result record, in input order. */
module UploadBatch {
  import opened Wrappers
  import opened Numerals
  import opened KeySanitizer
  import opened UploadKeys

  /** One file as the multipart parser hands it over. */
  datatype UploadedFile = UploadedFile(originalname: string, size: nat, buffer: seq<bv8>)

  /** The parameters of one PutObject request (bucket name aside). */
  datatype PutRequest = PutRequest(key: string, body: seq<bv8>, contentType: string,
                                   metaOriginalname: string, metaSize: string)

  /** One element of the 201 response. */
  datatype UploadResult = UploadResult(filename: string, url: string, key: string,
                                       size: nat, uploadedAt: string)

  /** The 400 response and the 500 response. */
  datatype UploadError = NoFilesProvided | UploadFailed

  /** What the handler obtains from outside, indexed by the file's position:
      the `Date.now()` reading taken when the key is built, whether its
      PutObject and presign both resolve, the URL `getSignedUrl` returns for
      its key (which embeds the signing time, so it is indexed by position as
      well), and the `new Date().toISOString()` reading taken for the result. */
  datatype Services = Services(keyClock: nat -> nat, succeeds: nat -> bool,
                               presign: (nat, string) -> string, isoClock: nat -> string)

  /** The PutObject requests issued, and the response. */
  datatype Run = Run(writes: seq<PutRequest>, outcome: Result<seq<UploadResult>, UploadError>)

  const PdfContentType: string := "application/pdf"

  /** The request of index.js:45-54. The metadata entry `originalname` carries
      the generated key, as the code writes it. */
  function PutRequestFor(file: UploadedFile, stamp: nat): PutRequest
  {
    var key := UploadKey(stamp, file.originalname);
    PutRequest(key, file.buffer, PdfContentType, key, Decimal(file.size))
  }

  /** The result record of index.js:63-69 for the file at position `i`. */
  function ResultFor(file: UploadedFile, i: nat, svc: Services): UploadResult
  {
    var key := UploadKey(svc.keyClock(i), file.originalname);
    UploadResult(file.originalname, svc.presign(i, key), key, file.size, svc.isoClock(i))
  }

  predicate AllSucceed(n: nat, svc: Services)
  {
    forall i :: 0 <= i < n ==> svc.succeeds(i)
  }

  /** `req.files.map(...)` under `Promise.all`: every callback issues its
      PutObject before the first one is awaited, and the batch fails as a
      whole if any file fails. */
  function UploadBatch(files: Option<seq<UploadedFile>>, svc: Services): (run: Run)
    ensures run.outcome == Failure(NoFilesProvided) <==> files.None? || files.value == []
    ensures run.outcome == Failure(NoFilesProvided) ==> run.writes == []
    ensures run.outcome.Success? <==>
              files.Some? && files.value != [] && AllSucceed(|files.value|, svc)
    ensures files.Some? ==> |run.writes| == |files.value|
    ensures files.Some? ==> forall i :: 0 <= i < |run.writes| ==>
              var f := files.value[i];
              && run.writes[i].key == UploadKey(svc.keyClock(i), f.originalname)
              && run.writes[i].body == f.buffer
              && run.writes[i].contentType == PdfContentType
              && run.writes[i].metaOriginalname == run.writes[i].key
              && IsCanonical(run.writes[i].metaSize) && Value(run.writes[i].metaSize) == f.size
    ensures run.outcome.Success? ==>
              |run.outcome.value| == |files.value| &&
              forall i :: 0 <= i < |files.value| ==>
                var (f, r) := (files.value[i], run.outcome.value[i]);
                && r.filename == f.originalname
                && r.size == f.size
                && r.key == run.writes[i].key
                && r.url == svc.presign(i, r.key)
                && r.uploadedAt == svc.isoClock(i)
  {
    if files.None? || files.value == [] then
      Run([], Failure(NoFilesProvided))
    else
      var fs := files.value;
      var writes := seq(|fs|, i requires 0 <= i < |fs| => PutRequestFor(fs[i], svc.keyClock(i)));
      assert forall i :: 0 <= i < |fs| ==> Value(Decimal(fs[i].size)) == fs[i].size by {
        forall i | 0 <= i < |fs| ensures Value(Decimal(fs[i].size)) == fs[i].size {
          ValueOfDecimal(fs[i].size);
        }
      }
      if AllSucceed(|fs|, svc) then
        Run(writes, Success(seq(|fs|, i requires 0 <= i < |fs| =>
                                  ResultFor(fs[i], i, svc))))
      else
        Run(writes, Failure(UploadFailed))
  }

  /** Every key in a successful response lies under `pdfs/` and reads back as
      the clock reading and the sanitised name of its own input file. */
  lemma BatchKeysParse(files: seq<UploadedFile>, svc: Services, i: nat)
    requires UploadBatch(Some(files), svc).outcome.Success?
    requires i < |files|
    ensures var key := UploadBatch(Some(files), svc).outcome.value[i].key;
            HasKeyPrefix(key) && ParseUploadKey(key) == Some((svc.keyClock(i), Sanitize(files[i].originalname)))
  {
    ParseOfUploadKey(svc.keyClock(i), files[i].originalname);
  }

  /** Two files of one batch are written under the same key exactly when the
      clock read the same for both and their names sanitise alike. */
  lemma BatchKeysCollide(files: seq<UploadedFile>, svc: Services, i: nat, j: nat)
    requires i < |files| && j < |files|
    ensures var w := UploadBatch(Some(files), svc).writes;
            w[i].key == w[j].key <==>
            svc.keyClock(i) == svc.keyClock(j) &&
            Sanitize(files[i].originalname) == Sanitize(files[j].originalname)
  {
    UploadKeyCollision(svc.keyClock(i), files[i].originalname, svc.keyClock(j), files[j].originalname);
  }
}
