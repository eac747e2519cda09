/** The key lookup of `GET /files/:key` (index.js:79-92): the route
    parameter is passed through the key sanitiser before a URL is signed for it. */
module Retrieval {
  import opened Numerals
  import opened KeySanitizer
  import opened UploadKeys

  /** The object key a request for `/files/<param>` is signed for (index.js:81). */
  function RequestedKey(param: string): (key: string)
    ensures '/' !in key
    ensures IsSubsequence(key, param)
  {
    SanitizeIsSubsequence(param);
    Sanitize(param)
  }

  /** The lookup deletes exactly the `/` of a generated key and nothing else. */
  lemma RequestedKeyOfUploadKey(stamp: nat, originalname: string)
    ensures var key := UploadKey(stamp, originalname);
            RequestedKey(key) == key[..|KeyPrefix| - 1] + key[|KeyPrefix|..]
  {
    var key := UploadKey(stamp, originalname);
    var head, tail := key[..|KeyPrefix| - 1], key[|KeyPrefix|..];
    assert head == "pdfs";
    assert AllAllowed(head) by {
      forall i | 0 <= i < |head| ensures Allowed(head[i]) {
        assert 'a' <= head[i] <= 'z';
      }
    }
    assert tail == Decimal(stamp) + [Separator] + Sanitize(originalname);
    assert key == head + [key[|KeyPrefix| - 1]] + tail;
    SanitizeDropsOne(head, key[|KeyPrefix| - 1], tail);
  }

  /** Hence no request, whatever its parameter, is signed for a generated key. */
  lemma GeneratedKeysUnreachable(param: string, stamp: nat, originalname: string)
    ensures RequestedKey(param) != UploadKey(stamp, originalname)
  {
  }

  /** The lookup with the reserved prefix kept: a parameter starting with
      `pdfs/` keeps that prefix and has the rest sanitised. */
  function RequestedKeyFixed(param: string): (key: string)
    ensures forall i :: 0 <= i < |key| ==> Allowed(key[i]) || (i == |KeyPrefix| - 1 && HasKeyPrefix(key))
    ensures HasKeyPrefix(key) <==> HasKeyPrefix(param)
  {
    if HasKeyPrefix(param) then
      KeyPrefix + Sanitize(param[|KeyPrefix|..])
    else
      var key := Sanitize(param);
      assert HasKeyPrefix(key) ==> !Allowed(key[|KeyPrefix| - 1]);
      key
  }

  /** With the prefix kept, every generated key is looked up as itself. */
  lemma FixedReachesGeneratedKeys(stamp: nat, originalname: string)
    ensures RequestedKeyFixed(UploadKey(stamp, originalname)) == UploadKey(stamp, originalname)
  {
    var key := UploadKey(stamp, originalname);
    var tail := Decimal(stamp) + [Separator] + Sanitize(originalname);
    assert key[|KeyPrefix|..] == tail;
    assert AllAllowed(tail);
    SanitizeFixedPoint(tail);
  }
}
