/**
 * Browser-storage helpers of the client: the per-page key prefix, the
 * obfuscated form in which a remembered API key is stored, and the default
 * bot title.
 */
module Settings {
  import opened Wrappers
  import opened Text
  import Base64

  // ----- LS_PREFIX --------------------------------------------------------

  const IndexPage := "/index.html"

  predicate EndsWith(s: string, suffix: string) {
    |suffix| <= |s| && s[|s| - |suffix|..] == suffix
  }

  /** `pathname.replace(/\/index\.html$/, '/').replace(/([^/])$/, '$1/')`:
      a trailing `/index.html` becomes `/`, then a path not ending in `/`
      gets one. */
  function NormalisePath(p: string): string {
    var q := if EndsWith(p, IndexPage) then p[..|p| - |IndexPage|] + "/" else p;
    if q != [] && q[|q| - 1] != '/' then q + "/" else q
  }

  /** The prefix of every storage key of the page at `pathname`. */
  function StoragePrefix(pathname: string): string {
    "cbl_" + NormalisePath(pathname) + "_"
  }

  /** A non-empty path normalises to a directory: it ends with `/`. */
  lemma NormalisedIsDirectory(p: string)
    ensures p != [] <==> NormalisePath(p) != []
    ensures p != [] ==> NormalisePath(p)[|NormalisePath(p)| - 1] == '/'
  {
  }

  lemma NormaliseIdempotent(p: string)
    ensures NormalisePath(NormalisePath(p)) == NormalisePath(p)
  {
    var n := NormalisePath(p);
    NormalisedIsDirectory(p);
    if n != [] {
      assert !EndsWith(n, IndexPage);
    }
  }

  /** A directory, the same directory with a trailing `/`, and its
      `index.html` share one storage namespace. */
  lemma DirectoryFormsShareNamespace(d: string)
    requires d != [] && d[|d| - 1] != '/' && !EndsWith(d, IndexPage)
    ensures StoragePrefix(d) == StoragePrefix(d + "/")
    ensures StoragePrefix(d) == StoragePrefix(d + IndexPage)
  {
    var withIndex := d + IndexPage;
    assert EndsWith(withIndex, IndexPage);
    assert withIndex[..|withIndex| - |IndexPage|] == d;
    var slashed := d + "/";
    assert slashed[|slashed| - 1] != IndexPage[|IndexPage| - 1];
    assert !EndsWith(slashed, IndexPage) by {
      assert |IndexPage| <= |slashed| ==> slashed[|slashed| - |IndexPage|..][|IndexPage| - 1] == slashed[|slashed| - 1];
    }
  }

  /** A directory path (ending in `/`, not in `/index.html`) is left as it is. */
  lemma DirectoryNormalisesToItself(d: string)
    requires d != [] && d[|d| - 1] == '/' && !EndsWith(d, IndexPage)
    ensures NormalisePath(d) == d
  {
  }

  /** Pages in different directories get different storage prefixes, so
      their stored keys, histories and memories are kept apart. */
  lemma DistinctDirectoriesDistinctPrefixes(d1: string, d2: string)
    requires d1 != [] && d1[|d1| - 1] == '/' && !EndsWith(d1, IndexPage)
    requires d2 != [] && d2[|d2| - 1] == '/' && !EndsWith(d2, IndexPage)
    ensures StoragePrefix(d1) == StoragePrefix(d2) <==> d1 == d2
  {
    DirectoryNormalisesToItself(d1);
    DirectoryNormalisesToItself(d2);
    var p1, p2 := StoragePrefix(d1), StoragePrefix(d2);
    assert p1[4..|p1| - 1] == d1;
    assert p2[4..|p2| - 1] == d2;
  }

  // ----- key obfuscation ----------------------------------------------------

  predicate IsLatin1(s: string) {
    forall i :: 0 <= i < |s| ==> s[i] as int < 256
  }

  function Latin1Bytes(s: string): (b: seq<Base64.byte>)
    requires IsLatin1(s)
    ensures |b| == |s| && forall i :: 0 <= i < |s| ==> b[i] == s[i] as int
  {
    seq(|s|, i requires 0 <= i < |s| => s[i] as int)
  }

  function Latin1String(b: seq<Base64.byte>): (s: string)
    ensures IsLatin1(s) && |s| == |b| && forall i :: 0 <= i < |b| ==> s[i] as int == b[i]
  {
    seq(|b|, i requires 0 <= i < |b| => b[i] as char)
  }

  /** `btoa(key.split('').reverse().join(''))`; `btoa` throws on a character
      above U+00FF, modelled as `None`. */
  function ObfuscateKey(key: string): (r: Option<string>)
    ensures r.Some? <==> IsLatin1(key)
  {
    var reversed := Reverse(key);
    if IsLatin1(reversed) then
      assert IsLatin1(key) by {
        forall i | 0 <= i < |key| ensures key[i] as int < 256 {
          assert key[i] == reversed[|key| - 1 - i];
        }
      }
      Some(Base64.Encode(Latin1Bytes(reversed)))
    else
      assert !IsLatin1(key) by {
        var i :| 0 <= i < |reversed| && reversed[i] as int >= 256;
        assert key[|key| - 1 - i] == reversed[i];
      }
      None
  }

  /** `atob(stored)` reversed, or `''` when `atob` throws. */
  function DeobfuscateKey(stored: string): string {
    match Base64.Decode(stored)
    case None => ""
    case Some(b) => Reverse(Latin1String(b))
  }

  /** A remembered Latin-1 key is restored exactly on the next load. */
  lemma DeobfuscateObfuscate(key: string)
    requires IsLatin1(key)
    ensures ObfuscateKey(key).Some? && DeobfuscateKey(ObfuscateKey(key).value) == key
  {
    var reversed := Reverse(key);
    var b := Latin1Bytes(reversed);
    Base64.DecodeEncode(b);
    assert Latin1String(b) == reversed;
    ReverseInvolution(key);
  }

  /** Stored text that `atob` rejects restores as an empty key. */
  lemma MalformedStoredKeyIsEmpty(stored: string)
    requires Base64.Decode(stored).None?
    ensures DeobfuscateKey(stored) == ""
  {
  }

  // ----- bot title ----------------------------------------------------------

  const DefaultTitle := "メフィ"

  /** `botTitle.value.trim() || 'メフィ'` */
  function TitleOrDefault(input: string): string {
    if Trim(input) == [] then DefaultTitle else Trim(input)
  }

  /** The title stored is never blank and is already trimmed, so applying
      the rule to it again changes nothing. */
  lemma TitleIsSettled(input: string)
    ensures var t := TitleOrDefault(input);
            !IsBlank(t) && Trim(t) == t && TitleOrDefault(t) == t
    ensures !IsBlank(input) ==> TitleOrDefault(input) == Trim(input)
  {
    TrimEmptyIffBlank(input);
    TrimIdempotent(input);
    var t := TitleOrDefault(input);
    if Trim(input) == [] {
      assert !IsJsSpace(DefaultTitle[0]);
      assert !IsJsSpace(DefaultTitle[|DefaultTitle| - 1]);
      assert TrimStart(DefaultTitle) == DefaultTitle;
      assert TrimEnd(DefaultTitle) == DefaultTitle;
    }
    TrimEmptyIffBlank(t);
  }
}
