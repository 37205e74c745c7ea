/**
 * Cache-key derivation of `get_url_prepared` (parbake.py:140-141): the
 * requested URL's UTF-8 bytes in MIME-style base64, stripped of outer
 * whitespace, prefixed with "data-" and joined onto the storage directory.
 */
module CacheKey {
  import opened Wrappers
  import Utf8
  import Base64
  import PosixPath

  const PREFIX: string := "data-"

  /** Python's `str.isspace` for one character. */
  predicate IsSpace(c: char) {
    || '\t' <= c <= '\r'
    || '\U{1C}' <= c <= ' '
    || c == '\U{85}' || c == '\U{A0}' || c == '\U{1680}'
    || '\U{2000}' <= c <= '\U{200A}'
    || c == '\U{2028}' || c == '\U{2029}' || c == '\U{202F}' || c == '\U{205F}' || c == '\U{3000}'
  }

  /** `s` with its leading whitespace removed. */
  function TrimStart(s: string): (r: string)
    ensures |r| <= |s| && r == s[|s| - |r|..]
    ensures forall k :: 0 <= k < |s| - |r| ==> IsSpace(s[k])
    ensures r == [] || !IsSpace(r[0])
  {
    if s != [] && IsSpace(s[0]) then TrimStart(s[1..]) else s
  }

  /** `s` with its trailing whitespace removed. */
  function TrimEnd(s: string): (r: string)
    ensures |r| <= |s| && r == s[..|r|]
    ensures forall k :: |r| <= k < |s| ==> IsSpace(s[k])
    ensures r == [] || !IsSpace(r[|r| - 1])
  {
    if s != [] && IsSpace(s[|s| - 1]) then TrimEnd(s[..|s| - 1]) else s
  }

  /** Python's `str.strip()` with no argument. */
  function Strip(s: string): (r: string)
    ensures |r| <= |s|
    ensures r == [] || (!IsSpace(r[0]) && !IsSpace(r[|r| - 1]))
    ensures (forall k :: 0 <= k < |s| ==> !IsSpace(s[k])) ==> r == s
  {
    TrimEnd(TrimStart(s))
  }

  /** `codecs.encode(url.encode("UTF8"), "base64").decode("ASCII").strip()` */
  function EscapedUrl(url: string): (r: string)
    ensures url == [] ==> r == []
    ensures r == [] || (!IsSpace(r[0]) && !IsSpace(r[|r| - 1]))
  {
    Strip(Base64.EncodeLines(Utf8.Encode(url)))
  }

  /** The cache entry's file name, `"data-" + escaped_url`. */
  function CacheName(url: string): (r: string)
    ensures |PREFIX| <= |r| && r[..|PREFIX|] == PREFIX
    ensures url == [] ==> r == PREFIX
  {
    PREFIX + EscapedUrl(url)
  }

  /** The full path of the URL's cache entry under the storage directory. */
  function CachePath(storage: string, url: string): (r: string)
    ensures |r| >= |CacheName(url)| && r[|r| - |CacheName(url)|..] == CacheName(url)
    ensures !PosixPath.AllSlashes(r)
  {
    var name := CacheName(url);
    assert name[0] == 'd';
    var r := PosixPath.Join(storage, name);
    assert r[|r| - |name|] == 'd';
    r
  }

  /** Recovers the URL from a cache file name: drop the prefix and the line breaks, decode. */
  function UrlOfCacheName(name: string): Option<string> {
    if |name| < |PREFIX| || name[..|PREFIX|] != PREFIX then None
    else
      match Base64.Decode(Base64.RemoveNewlines(name[|PREFIX|..]))
      case None => None
      case Some(bytes) => Utf8.Decode(bytes)
  }

  lemma {:induction false} EncodeNonEmpty(url: string)
    ensures (Utf8.Encode(url) == []) == (url == [])
  {
  }

  /** No base64 character is whitespace, so `.strip()` removes exactly the final newline. */
  lemma StripFinalNewline(s: string)
    requires |s| > 0 && Base64.IsEncodingChar(s[0]) && Base64.IsEncodingChar(s[|s| - 1])
    ensures Strip(s + "\n") == s
  {
    var t := s + "\n";
    assert !IsSpace(t[0]);
    assert TrimStart(t) == t;
    assert t[..|t| - 1] == s;
    assert TrimEnd(t) == TrimEnd(s);
  }

  /** The escaped URL is the encoding's lines joined by single newlines, with no final newline. */
  lemma EscapedUrlIsJoinedLines(url: string)
    requires url != []
    ensures EscapedUrl(url) == Base64.JoinedLines(Utf8.Encode(url))
  {
    var bytes := Utf8.Encode(url);
    EncodeNonEmpty(url);
    Base64.EncodeLinesJoined(bytes);
    StripFinalNewline(Base64.JoinedLines(bytes));
  }

  /** The file name decodes back to the URL it was derived from. */
  lemma CacheNameRoundTrip(url: string)
    ensures UrlOfCacheName(CacheName(url)) == Some(url)
  {
    var name := CacheName(url);
    assert name[..|PREFIX|] == PREFIX && name[|PREFIX|..] == EscapedUrl(url);
    var bytes := Utf8.Encode(url);
    if url == [] {
      EncodeNonEmpty(url);
      assert EscapedUrl(url) == [];
    } else {
      EscapedUrlIsJoinedLines(url);
      EncodeNonEmpty(url);
      Base64.RemoveNewlinesJoined(bytes);
      Base64.DecodeEncode(bytes);
    }
    Utf8.DecodeEncode(url);
  }

  /** Distinct URL strings get distinct file names; equal ones the same name. */
  lemma CacheNameInjective(u: string, v: string)
    ensures CacheName(u) == CacheName(v) <==> u == v
  {
    CacheNameRoundTrip(u);
    CacheNameRoundTrip(v);
  }

  /** Under one storage directory, distinct URLs get distinct paths. */
  lemma CachePathInjective(storage: string, u: string, v: string)
    ensures CachePath(storage, u) == CachePath(storage, v) <==> u == v
  {
    var nu, nv := CacheName(u), CacheName(v);
    assert nu == PREFIX + EscapedUrl(u) && nv == PREFIX + EscapedUrl(v);
    assert nu[0] == 'd' && nv[0] == 'd';
    PosixPath.JoinInjective(storage, nu, nv);
    CacheNameInjective(u, v);
  }

  /**
   * `.strip()` only trims the ends: the key keeps its interior line breaks,
   * present exactly when the URL's UTF-8 form is longer than 57 bytes.
   */
  lemma EscapedUrlNewline(url: string)
    ensures '\n' in EscapedUrl(url) <==> |Utf8.Encode(url)| > Base64.LINE_BYTES
  {
    if url == [] {
      EncodeNonEmpty(url);
    } else {
      EscapedUrlIsJoinedLines(url);
      EncodeNonEmpty(url);
      Base64.JoinedLinesNewline(Utf8.Encode(url));
    }
  }

  /** The escaped URL's length from the URL's byte count. */
  lemma EscapedUrlLength(url: string)
    ensures |EscapedUrl(url)| == Base64.JoinedLength(|Utf8.Encode(url)|)
  {
    EncodeNonEmpty(url);
    if url != [] {
      EscapedUrlIsJoinedLines(url);
      Base64.JoinedLinesLength(Utf8.Encode(url));
    }
  }

  /**
   * The file name's length from the URL's byte count n: the prefix, four
   * characters per started 3-byte group, and one newline per 57 bytes after
   * the first line.
   */
  lemma CacheNameLength(url: string)
    ensures |CacheName(url)| == |PREFIX| + Base64.JoinedLength(|Utf8.Encode(url)|)
  {
    EscapedUrlLength(url);
  }

  /** The escaped URL is ASCII text. */
  lemma EscapedUrlAscii(url: string)
    ensures Utf8.IsAscii(EscapedUrl(url))
  {
    EncodeNonEmpty(url);
    if url != [] {
      EscapedUrlIsJoinedLines(url);
      Base64.JoinedLinesAscii(Utf8.Encode(url));
    }
  }

  lemma PrefixAscii(e: string)
    requires Utf8.IsAscii(e)
    ensures Utf8.IsAscii(PREFIX + e)
  {
    assert Utf8.IsAscii(PREFIX) by {
      assert PREFIX == ['d', 'a', 't', 'a', '-'];
      forall k | 0 <= k < |PREFIX| ensures PREFIX[k] as int < 0x80 {
        assert k == 0 || k == 1 || k == 2 || k == 3 || k == 4;
      }
    }
    Utf8.AsciiAppend(PREFIX, e);
  }

  /** The file name is ASCII, so its UTF-8 form, the bytes the filesystem stores, is as long as it. */
  lemma CacheNameAscii(url: string)
    ensures |Utf8.Encode(CacheName(url))| == |CacheName(url)|
  {
    var e := EscapedUrl(url);
    EscapedUrlAscii(url);
    PrefixAscii(e);
    var name := CacheName(url);
    assert name == PREFIX + e;
    assert Utf8.IsAscii(name);
  }

  lemma Utf8OfExample()
    ensures Utf8.Encode("ab?") == [97, 98, 63]
  {
    var url := "ab?";
    assert url[1..] == "b?" && url[1..][1..] == "?" && url[1..][1..][1..] == [];
  }

  lemma QuadOfExample()
    ensures Base64.Quad(97, 98, 63) == "YWI/"
  {
    assert 97 / 4 == 24 && (97 % 4) * 16 + 98 / 16 == 22 && (98 % 16) * 4 + 63 / 64 == 8 && 63 % 64 == 63;
    assert Base64.Digit(24) == 'Y' && Base64.Digit(22) == 'W' && Base64.Digit(8) == 'I' && Base64.Digit(63) == '/';
  }

  lemma EncodeOfExample()
    ensures Base64.Encode([97, 98, 63]) == "YWI/"
  {
    var bytes: seq<Utf8.byte> := [97, 98, 63];
    assert bytes[3..] == [];
    assert Base64.Encode(bytes) == Base64.Quad(97, 98, 63) + [];
    QuadOfExample();
  }

  lemma LinesOfExample()
    ensures Base64.EncodeLines([97, 98, 63]) == "YWI/\n"
  {
    var bytes: seq<Utf8.byte> := [97, 98, 63];
    EncodeOfExample();
    assert bytes[..3] == bytes && bytes[3..] == [];
  }

  /** The standard alphabet puts '/' in keys: "ab?" becomes "data-YWI/". */
  lemma SlashInKey()
    ensures CacheName("ab?") == "data-YWI/"
  {
    Utf8OfExample();
    LinesOfExample();
    StripFinalNewline("YWI/");
  }

  /**
   * A key without '/' names a file directly in the storage directory, which
   * is where the temporary file of the write-out is created.
   */
  lemma PlainKeyInStorage(storage: string, url: string)
    requires storage != [] && storage[|storage| - 1] != '/'
    requires '/' !in CacheName(url)
    ensures PosixPath.Dirname(CachePath(storage, url)) == storage
  {
    assert CacheName(url)[0] == 'd';
    PosixPath.DirnameOfJoin(storage, CacheName(url));
  }

  /**
   * The key "data-YWI/" of "ab?" under "/var/tmp" makes a path ending in '/',
   * whose dirname is a subdirectory named after the key.
   */
  lemma SlashKeyPath()
    ensures CachePath("/var/tmp", "ab?") == "/var/tmp/data-YWI/"
    ensures PosixPath.Dirname(CachePath("/var/tmp", "ab?")) == "/var/tmp/data-YWI"
  {
    SlashInKey();
    JoinOfExample();
    DirnameOfExample();
  }

  lemma JoinOfExample()
    ensures PosixPath.Join("/var/tmp", "data-YWI/") == "/var/tmp/data-YWI/"
  {
    var dir, name := "/var/tmp", "data-YWI/";
    assert name[0] == 'd' && dir[|dir| - 1] == 'p';
    assert PosixPath.Join(dir, name) == dir + "/" + name;
    var r := dir + "/" + name;
    assert |r| == 18;
    assert forall k :: 0 <= k < 18 ==> r[k] == "/var/tmp/data-YWI/"[k];
  }

  lemma DirnameOfExample()
    ensures PosixPath.Dirname("/var/tmp/data-YWI/") == "/var/tmp/data-YWI"
  {
    var p, q := "/var/tmp/data-YWI/", "/var/tmp/data-YWI";
    assert p[1] == 'v';
    assert p[..|p| - 1] == q;
    assert PosixPath.RStripSlashes(q) == q;
    assert PosixPath.RStripSlashes(p) == q;
    PosixPath.DirnameOfTrailingSlash(p);
  }
}
