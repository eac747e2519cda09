/** The `GET /newsletters` listing (index.js:94-114): each stored object
    under `pdfs/` becomes an entry with a display name derived from its key
    and the bucket's public URL for it. */
module Listing {
  import opened Wrappers
  import opened Strings
  import opened KeySanitizer
  import opened UploadKeys

  const PdfSuffix: string := ".pdf"

  /** The name shown when nothing is left of the key. */
  const FallbackName: string := "arquivo"

  /** One object of the store's listing. `lastModified` is the ISO rendering
      of its modification date, when the store reports one. */
  datatype StoredObject = StoredObject(key: string, size: nat, lastModified: Option<string>)

  /** One element of the listing response. */
  datatype ListingEntry = ListingEntry(key: string, filename: string, size: nat,
                                       lastModified: string, url: string)

  /** The 500 response of the listing. */
  datatype ListError = ListFailed

  /** JavaScript's `base || 'arquivo'` on a string. */
  function OrFallback(base: string): (name: string)
    ensures name != []
    ensures base != [] ==> name == base
  {
    if base == [] then FallbackName else base
  }

  /** `key.split('_').pop().replace('.pdf', '') || 'arquivo'` (index.js:103). */
  function DisplayName(key: string): (name: string)
    ensures name != [] && Separator !in name
    ensures Separator !in key ==> name == OrFallback(RemoveFirst(key, PdfSuffix))
  {
    OrFallback(RemoveFirst(LastPiece(key, Separator), PdfSuffix))
  }

  /** For a generated key whose sanitised name holds no `_`, the display name
      is that name with its first `.pdf` removed. */
  lemma DisplayNameOfUploadKey(stamp: nat, originalname: string)
    requires Separator !in Sanitize(originalname)
    ensures DisplayName(UploadKey(stamp, originalname)) ==
            OrFallback(RemoveFirst(Sanitize(originalname), PdfSuffix))
  {
    var head := KeyPrefix + Numerals.Decimal(stamp);
    assert UploadKey(stamp, originalname) == head + [Separator] + Sanitize(originalname);
    LastPieceOf(head, Separator, Sanitize(originalname));
  }

  /** The display name of a generated key depends only on the part of the
      sanitised name after its last `_`: `a_b` is listed as `b` would be. */
  lemma DisplayNameKeepsLastPiece(stamp: nat, a: string, b: string)
    requires Separator !in Sanitize(b)
    ensures DisplayName(UploadKey(stamp, a + [Separator] + b)) == DisplayName(UploadKey(stamp, b))
  {
    var sb := Sanitize(b);
    assert DisplayName(UploadKey(stamp, b)) == OrFallback(RemoveFirst(sb, PdfSuffix)) by {
      DisplayNameOfUploadKey(stamp, b);
    }
    assert LastPiece(UploadKey(stamp, a + [Separator] + b), Separator) == sb by {
      SanitizeKeepsOne(a, Separator, b);
      var head := KeyPrefix + Numerals.Decimal(stamp) + [Separator];
      assert UploadKey(stamp, a + [Separator] + b) == head + ((Sanitize(a) + [Separator]) + sb);
      Regroup(head, Sanitize(a) + [Separator], sb);
      Regroup(head, Sanitize(a), [Separator]);
      LastPieceOf(head + Sanitize(a), Separator, sb);
    }
  }

  /** A file uploaded as `<base>.pdf`, with no `_` and no `.` in `<base>`, is
      listed under `<base>`. */
  lemma DisplayNameOfPdfUpload(stamp: nat, originalname: string, base: string)
    requires Sanitize(originalname) == base + PdfSuffix
    requires base != [] && Separator !in base && PdfSuffix[0] !in base
    ensures DisplayName(UploadKey(stamp, originalname)) == base
  {
    var name := base + PdfSuffix;
    assert Separator !in name by {
      assert forall i :: 0 <= i < |name| ==> name[i] != Separator by {
        forall i | 0 <= i < |name| ensures name[i] != Separator {
          if i >= |base| { assert name[i] == PdfSuffix[i - |base|]; }
        }
      }
    }
    DisplayNameOfUploadKey(stamp, originalname);
    assert RemoveFirst(name, PdfSuffix) == base by {
      assert name == base + PdfSuffix + [];
      RemoveFirstAfter(base, PdfSuffix, []);
      assert base + [] == base;
    }
  }

  /** For instance, `my_report.pdf` is listed as `report`. */
  lemma DisplayNameTruncatesAtUnderscore(stamp: nat)
    ensures DisplayName(UploadKey(stamp, "my_report.pdf")) == "report"
  {
    var a: string, base: string := "my", "report";
    var b := base + PdfSuffix;
    assert a + [Separator] + b == "my_report.pdf";
    assert Separator !in base && PdfSuffix[0] !in base;
    assert Sanitize(b) == b by {
      assert AllAllowed(b);
      SanitizeFixedPoint(b);
    }
    assert DisplayName(UploadKey(stamp, b)) == base by {
      DisplayNameOfPdfUpload(stamp, b, base);
    }
    assert DisplayName(UploadKey(stamp, a + [Separator] + b)) == DisplayName(UploadKey(stamp, b)) by {
      DisplayNameKeepsLastPiece(stamp, a, b);
    }
  }

  /** The display name taken from the text after the FIRST `_`, i.e. after
      the timestamp, so that the whole sanitised name is shown. */
  function DisplayNameFixed(key: string): (name: string)
    ensures name != []
  {
    OrFallback(RemoveFirst(AfterFirst(key, Separator), PdfSuffix))
  }

  /** The corrected display name of every generated key is its sanitised
      name with the first `.pdf` removed, `_` or not. */
  lemma DisplayNameFixedOfUploadKey(stamp: nat, originalname: string)
    ensures DisplayNameFixed(UploadKey(stamp, originalname)) ==
            OrFallback(RemoveFirst(Sanitize(originalname), PdfSuffix))
  {
    NameAfterFirstSeparator(stamp, originalname);
  }

  /** The public URL of an object (index.js:106). */
  function PublicUrl(bucket: string, region: string, key: string): (url: string)
    ensures |url| > |key| + 8 && url[|url| - |key|..] == key
    ensures url[..8] == "https://"
  {
    "https://" + bucket + ".s3." + region + ".amazonaws.com/" + key
  }

  /** Within one bucket and region, distinct keys have distinct public URLs. */
  lemma PublicUrlInjective(bucket: string, region: string, key1: string, key2: string)
    requires PublicUrl(bucket, region, key1) == PublicUrl(bucket, region, key2)
    ensures key1 == key2
  {
  }

  /** One entry of the listing; `now` is the fallback clock reading. */
  function EntryFor(obj: StoredObject, bucket: string, region: string, now: string): ListingEntry
  {
    ListingEntry(obj.key, DisplayName(obj.key), obj.size,
                 if obj.lastModified.Some? then obj.lastModified.value else now,
                 PublicUrl(bucket, region, obj.key))
  }

  /** `Contents.map(...)`: the response has one entry per listed object, in
      listing order. A listing without `Contents` makes `Contents.map` throw,
      and the handler answers 500. `isoClock(i)` is the clock reading taken
      for entry `i`. */
  function ListNewsletters(contents: Option<seq<StoredObject>>, bucket: string, region: string,
                           isoClock: nat -> string): (r: Result<seq<ListingEntry>, ListError>)
    ensures r.Failure? <==> contents.None?
    ensures r.Success? ==> |r.value| == |contents.value|
    ensures r.Success? ==>
              forall i :: 0 <= i < |r.value| ==>
                && r.value[i].key == contents.value[i].key
                && r.value[i].filename == DisplayName(contents.value[i].key)
                && r.value[i].size == contents.value[i].size
                && r.value[i].lastModified ==
                     (if contents.value[i].lastModified.Some? then contents.value[i].lastModified.value else isoClock(i))
                && r.value[i].url == PublicUrl(bucket, region, contents.value[i].key)
  {
    match contents
    case None => Failure(ListFailed)
    case Some(objs) =>
      var entries := seq(|objs|, i requires 0 <= i < |objs| => EntryFor(objs[i], bucket, region, isoClock(i)));
      assert forall i :: 0 <= i < |objs| ==> entries[i] == EntryFor(objs[i], bucket, region, isoClock(i));
      Success(entries)
  }

  /** An empty bucket, reported without `Contents`, is answered with 500. */
  lemma EmptyBucketFails(bucket: string, region: string, isoClock: nat -> string)
    ensures ListNewsletters(None, bucket, region, isoClock) == Failure(ListFailed)
  {
  }

  /** The listing with a missing `Contents` read as no objects, and with the
      corrected display name. */
  function ListNewslettersFixed(contents: Option<seq<StoredObject>>, bucket: string, region: string,
                                isoClock: nat -> string): (entries: seq<ListingEntry>)
    ensures contents.None? ==> entries == []
    ensures contents.Some? ==> |entries| == |contents.value|
    ensures contents.Some? ==>
              forall i :: 0 <= i < |entries| ==>
                entries[i] == EntryFor(contents.value[i], bucket, region, isoClock(i)).(filename := DisplayNameFixed(contents.value[i].key))
  {
    var objs := if contents.Some? then contents.value else [];
    seq(|objs|, i requires 0 <= i < |objs| =>
          EntryFor(objs[i], bucket, region, isoClock(i)).(filename := DisplayNameFixed(objs[i].key)))
  }

  /** Where the listing succeeds, the corrected listing differs from it only in
      the display names. */
  lemma ListNewslettersFixedAgrees(objs: seq<StoredObject>, bucket: string, region: string,
                                   isoClock: nat -> string, i: nat)
    requires i < |objs|
    ensures var e := ListNewsletters(Some(objs), bucket, region, isoClock).value[i];
            ListNewslettersFixed(Some(objs), bucket, region, isoClock)[i] == e.(filename := DisplayNameFixed(objs[i].key))
  {
  }
}
