/** The fingerprint extractor of the isolated side (`getHash`): the leftmost
    run of 32 lower-case hexadecimal characters in a url, which is how the
    page's thumbnails and full images are told to belong together. */
module Fingerprint {
  import opened Js

  /** The length of a fingerprint. */
  const FingerprintLength: nat := 32

  /** The character class `[a-f0-9]`. */
  predicate IsHexLower(c: char)
  {
    '0' <= c <= '9' || 'a' <= c <= 'f'
  }

  /** `[a-f0-9]{32}` matches `s` at index `i`. */
  predicate HexRunAt(s: string, i: int)
  {
    0 <= i && i + FingerprintLength <= |s| &&
    forall k :: i <= k < i + FingerprintLength ==> IsHexLower(s[k])
  }

  /** The regular expression search from index `i` on: the first index at
      which the pattern matches, if any. */
  function FindRun(s: string, i: nat): (r: Option<nat>)
    requires i <= |s|
    ensures r.Some? ==> i <= r.value && HexRunAt(s, r.value)
    ensures r.Some? ==> forall j :: i <= j < r.value ==> !HexRunAt(s, j)
    ensures r.None? ==> forall j :: i <= j ==> !HexRunAt(s, j)
    decreases |s| - i
  {
    if i + FingerprintLength > |s| then None
    else if HexRunAt(s, i) then Some(i)
    else FindRun(s, i + 1)
  }

  /** What `getHash` returns: `''`, `null`, the matched text, or a thrown
      TypeError (`url.match` is not a function for a truthy non-string). */
  datatype Hash = Blank | NoMatch | Found(h: string) | HashThrew

  /** `getHash(url)`. */
  function GetHash(url: Prop): (r: Hash)
    ensures r.Blank? <==> !Truthy(url)
    ensures r.HashThrew? <==> Truthy(url) && !IsString(url)
    ensures r.NoMatch? <==> IsString(url) && url.value.s != "" && forall j :: !HexRunAt(url.value.s, j)
    ensures r.Found? ==>
      && IsString(url)
      && |r.h| == FingerprintLength
      && exists i :: HexRunAt(url.value.s, i) && url.value.s[i..i + FingerprintLength] == r.h
                     && forall j :: 0 <= j < i ==> !HexRunAt(url.value.s, j)
  {
    if !Truthy(url) then Blank
    else
      match url.value
      case JStr(s) =>
        (match FindRun(s, 0)
         case None => NoMatch
         case Some(i) => Found(s[i..i + FingerprintLength]))
      case _ => HashThrew
  }

  /** The fingerprint of a string, such as a record's url or an image source. */
  function HashOf(s: string): (r: Hash)
    ensures r == Blank <==> s == ""
    ensures !r.HashThrew?
  {
    GetHash(Some(JStr(s)))
  }

  /** Every character of a fingerprint is in `[a-f0-9]`. */
  lemma FingerprintIsHex(s: string)
    requires HashOf(s).Found?
    ensures forall k :: 0 <= k < FingerprintLength ==> IsHexLower(HashOf(s).h[k])
  {
    var i :| HexRunAt(s, i) && s[i..i + FingerprintLength] == HashOf(s).h;
    assert forall k :: 0 <= k < FingerprintLength ==> HashOf(s).h[k] == s[i + k];
  }

  /** A fingerprint is its own fingerprint. */
  lemma FingerprintOfFingerprint(s: string)
    requires HashOf(s).Found?
    ensures HashOf(HashOf(s).h) == HashOf(s)
  {
    var h := HashOf(s).h;
    FingerprintIsHex(s);
    assert HexRunAt(h, 0);
    assert h[0..FingerprintLength] == h;
  }

  /** The run at the leftmost matching index is the fingerprint. */
  lemma LeftmostRunWins(s: string, i: nat)
    requires HexRunAt(s, i) && forall j :: 0 <= j < i ==> !HexRunAt(s, j)
    ensures HashOf(s) == Found(s[i..i + FingerprintLength])
  {
    var r := FindRun(s, 0);
    assert r == Some(i);
  }
}
