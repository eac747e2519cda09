/** Storage keys built by the upload handler (index.js:43):
    `pdfs/` + the millisecond timestamp in decimal + `_` + the sanitised
    original name, and the parse that recovers both parts from a key. */
module UploadKeys {
  import opened Wrappers
  import opened Strings
  import opened Numerals
  import opened KeySanitizer

  /** The reserved prefix every uploaded object is stored under. */
  const KeyPrefix: string := "pdfs/"

  /** The character between the timestamp and the name. */
  const Separator: char := '_'

  predicate HasKeyPrefix(key: string)
  {
    |key| >= |KeyPrefix| && key[..|KeyPrefix|] == KeyPrefix
  }

  /** The key of a file named `originalname` uploaded when the clock read `stamp`. */
  function UploadKey(stamp: nat, originalname: string): (key: string)
    ensures HasKeyPrefix(key) && |key| > |KeyPrefix| + 1
    ensures '/' in key
  {
    var key := KeyPrefix + Decimal(stamp) + [Separator] + Sanitize(originalname);
    assert key[4] == '/';
    key
  }

  /** Splits a key of the upload shape back into its timestamp and name. */
  function ParseUploadKey(key: string): Option<(nat, string)>
  {
    if !HasKeyPrefix(key) then None
    else
      var rest := key[|KeyPrefix|..];
      match IndexOf(rest, Separator)
      case None => None
      case Some(i) =>
        var digits, name := rest[..i], rest[i + 1..];
        if IsCanonical(digits) && AllAllowed(name) then Some((Value(digits), name)) else None
  }

  /** The timestamp and the sanitised name can be read back from a generated key. */
  lemma ParseOfUploadKey(stamp: nat, originalname: string)
    ensures ParseUploadKey(UploadKey(stamp, originalname)) == Some((stamp, Sanitize(originalname)))
  {
    var digits, name := Decimal(stamp), Sanitize(originalname);
    var key := UploadKey(stamp, originalname);
    var rest := digits + [Separator] + name;
    assert key[|KeyPrefix|..] == rest by {
      Regroup(KeyPrefix, digits + [Separator], name);
      Regroup(KeyPrefix, digits, [Separator]);
    }
    assert IndexOf(rest, Separator) == Some(|digits|) by {
      assert rest[|digits|] == Separator;
    }
    assert rest[..|digits|] == digits && rest[|digits| + 1..] == name;
    ValueOfDecimal(stamp);
  }

  /** Every key the parse accepts is the key of its parts, and its name part
      is already sanitised: the parse recognises exactly the generated keys. */
  lemma UploadKeyOfParse(key: string, stamp: nat, name: string)
    requires ParseUploadKey(key) == Some((stamp, name))
    ensures Sanitize(name) == name && key == UploadKey(stamp, name)
  {
    assert HasKeyPrefix(key);
    var rest := key[|KeyPrefix|..];
    var i := IndexOf(rest, Separator).value;
    var digits := rest[..i];
    assert IsCanonical(digits) && Value(digits) == stamp && rest[i + 1..] == name;
    assert Decimal(stamp) == digits by {
      DecimalOfValue(digits);
    }
    assert Sanitize(name) == name by {
      SanitizeFixedPoint(name);
    }
    assert key == KeyPrefix + ((digits + [Separator]) + name) by {
      assert rest == digits + [Separator] + name;
      assert key == key[..|KeyPrefix|] + rest;
    }
    Regroup(KeyPrefix, digits + [Separator], name);
    Regroup(KeyPrefix, digits, [Separator]);
  }

  /** Two uploads get the same key exactly when the clock read the same and
      the names sanitise to the same string. */
  lemma UploadKeyCollision(stamp1: nat, name1: string, stamp2: nat, name2: string)
    ensures UploadKey(stamp1, name1) == UploadKey(stamp2, name2) <==>
            stamp1 == stamp2 && Sanitize(name1) == Sanitize(name2)
  {
    ParseOfUploadKey(stamp1, name1);
    ParseOfUploadKey(stamp2, name2);
  }

  /** The text after the first `_` of a generated key is the sanitised name. */
  lemma NameAfterFirstSeparator(stamp: nat, originalname: string)
    ensures AfterFirst(UploadKey(stamp, originalname), Separator) == Sanitize(originalname)
  {
    var head := KeyPrefix + Decimal(stamp);
    assert Separator !in head by {
      assert forall i :: 0 <= i < |head| ==> head[i] == '/' || 'a' <= head[i] <= 'z' || IsDigit(head[i]) by {
        forall i | 0 <= i < |head| ensures head[i] == '/' || 'a' <= head[i] <= 'z' || IsDigit(head[i]) {
          if i >= |KeyPrefix| { assert head[i] == Decimal(stamp)[i - |KeyPrefix|]; }
        }
      }
    }
    assert UploadKey(stamp, originalname) == head + [Separator] + Sanitize(originalname);
    AfterFirstOf(head, Separator, Sanitize(originalname));
  }
}
