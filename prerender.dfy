/**
 * Rendering into the cache and the lookup-or-render rule: the write-out at
 * the end of `process_page_and_store` (parbake.py:117-126), the read-back of
 * the request handlers (parbake.py:162-165) and `get_url_prepared`
 * (parbake.py:135-145). The filesystem is a value: the regular files by
 * path, and the set of existing directories.
 */
module Prerender {
  import opened Wrappers
  import Utf8
  import Capture
  import CacheKey
  import Base64
  import CacheEntry
  import PosixPath

  /**
   * Regular files by path, and the existing directories, each named without
   * trailing slashes ("/" for the root). Paths are compared as strings.
   */
  datatype Store = Store(files: map<string, string>, dirs: set<string>)

  /** The result of `get_url_prepared`: `(None, None)`, `(url, filename)`, or the render's exception. */
  datatype Prepared = MissingUrl | Ready(url: string, filename: string) | RenderFailed(url: string, filename: string)

  /** The longest file name, in bytes, a Linux filesystem accepts for one path component. */
  const NAME_MAX: nat := 255

  /**
   * The last component of `p` (trailing slashes aside) has at most NAME_MAX
   * bytes; a system call on a longer name fails with ENAMETOOLONG.
   */
  predicate NameFits(p: string) {
    |Utf8.Encode(PosixPath.BaseName(PosixPath.RStripSlashes(p)))| <= NAME_MAX
  }

  /**
   * The states a filesystem can be in: every file has a non-empty name that
   * does not end with '/' and is not also a directory.
   */
  predicate Valid(st: Store) {
    forall f :: f in st.files ==> f != [] && f[|f| - 1] != '/' && f !in st.dirs
  }

  /**
   * `os.path.exists(p)`: `p` is a file, or reaches a directory with or
   * without trailing slashes. A name that is too long makes `os.stat`
   * raise, which `exists` reports as false.
   */
  predicate Exists(st: Store, p: string) {
    NameFits(p) && (p in st.files || (p != [] && PosixPath.Canonical(p) in st.dirs))
  }

  /** `mkstemp(dir=d)` finds its directory: `d` is "" (the working directory) or an existing directory. */
  predicate IsDirectory(st: Store, d: string) {
    d == [] || (NameFits(d) && PosixPath.Canonical(d) in st.dirs)
  }

  /**
   * `os.rename` of a regular file onto `p` succeeds: `p` is not empty, does
   * not end with '/' (which demands a directory), is not a directory, its
   * name fits (else ENAMETOOLONG) and its directory exists (else ENOENT).
   */
  predicate RenameAllowed(st: Store, p: string) {
    && p != [] && p[|p| - 1] != '/' && p !in st.dirs
    && NameFits(p) && IsDirectory(st, PosixPath.Dirname(p))
  }

  /** The file `mkstemp(prefix="temp-", dir=dir)` creates; `suffix` is its random part. */
  function TempIn(dir: string, suffix: string): string {
    PosixPath.Join(dir, "temp-" + suffix)
  }

  /** A character of `tempfile`'s random names. */
  predicate TempChar(c: char) {
    'a' <= c <= 'z' || '0' <= c <= '9' || c == '_'
  }

  /**
   * `mkstemp` only returns a name that was free (it creates the file
   * exclusively), made of its prefix and eight random characters.
   */
  predicate FreshTemp(st: Store, dir: string, suffix: string) {
    && |suffix| == 8 && (forall k :: 0 <= k < |suffix| ==> TempChar(suffix[k]))
    && var t := TempIn(dir, suffix);
       t !in st.files && PosixPath.Canonical(t) !in st.dirs
  }

  /** `mkstemp`'s file name is 13 ASCII characters without '/'. */
  lemma TempNameChars(suffix: string)
    requires |suffix| == 8 && forall k :: 0 <= k < |suffix| ==> TempChar(suffix[k])
    ensures var name := "temp-" + suffix; '/' !in name && |Utf8.Encode(name)| == 13
  {
    var name := "temp-" + suffix;
    assert forall k :: 0 <= k < |name| ==> name[k] == if k < 5 then "temp-"[k] else suffix[k - 5];
    assert forall k :: 0 <= k < |name| ==> name[k] != '/' && name[k] as int < 0x80;
    assert Utf8.IsAscii(name);
  }

  /** A temporary file's path is a plain file name that fits, in the directory it was made in. */
  lemma TempNameFits(dir: string, suffix: string)
    requires |suffix| == 8 && forall k :: 0 <= k < |suffix| ==> TempChar(suffix[k])
    ensures var t := TempIn(dir, suffix);
      t != [] && t[|t| - 1] != '/' && PosixPath.Canonical(t) == t && NameFits(t)
  {
    var name := "temp-" + suffix;
    TempNameChars(suffix);
    PosixPath.LastComponentOfJoin(dir, name);
    var t := TempIn(dir, suffix);
    assert t[|t| - |name|..] == name;
    assert t[|t| - 1] == name[|name| - 1];
    assert PosixPath.RStripSlashes(t) == t;
    assert !PosixPath.AllSlashes(t);
  }

  /** Both system calls of the write-out succeed for `path`. */
  predicate CanPublish(st: Store, path: string) {
    IsDirectory(st, PosixPath.Dirname(path)) && RenameAllowed(st, path)
  }

  /** The entry text of a finished capture: `json.dump(metadata)`, a newline, the page. */
  function EntryText(o: Capture.Session, encode: Capture.Metadata -> string): string
    requires o.page.Some?
  {
    CacheEntry.Write(encode(o.metadata), o.page.value)
  }

  /**
   * `tempfile.mkstemp(prefix="temp-", dir=dir)` (line 117): raises when
   * `dir` is not a directory, otherwise creates an empty file there.
   */
  method Mkstemp(st: Store, dir: string, suffix: string) returns (ok: bool, temp: string, st': Store)
    requires IsDirectory(st, dir) ==> FreshTemp(st, dir, suffix)
    ensures ok == IsDirectory(st, dir)
    ensures ok ==> temp == TempIn(dir, suffix) && temp !in st.files && st' == Store(st.files[temp := ""], st.dirs)
    ensures !ok ==> st' == st
    ensures Valid(st) ==> Valid(st')
  {
    ok, temp, st' := false, "", st;
    if IsDirectory(st, dir) {
      ok, temp := true, TempIn(dir, suffix);
      st' := Store(st.files[temp := ""], st.dirs);
      TempNameFits(dir, suffix);
      if Valid(st) {
        forall f | f in st'.files
          ensures f != [] && f[|f| - 1] != '/' && f !in st'.dirs
        {
          if f != temp {
            assert f in st.files;
          }
        }
      }
    }
  }

  /**
   * `os.rename(src, dst)` of the regular file `src` (line 126): raises when
   * `dst` ends with '/', is a directory, has a name that is too long or lies
   * in a missing directory, and otherwise moves the text.
   */
  method Rename(st: Store, src: string, dst: string) returns (ok: bool, st': Store)
    requires src in st.files
    ensures ok == RenameAllowed(st, dst)
    ensures ok ==> st' == Store((st.files - {src})[dst := st.files[src]], st.dirs)
    ensures !ok ==> st' == st
    ensures Valid(st) ==> Valid(st')
  {
    ok, st' := false, st;
    if RenameAllowed(st, dst) {
      ok := true;
      st' := Store((st.files - {src})[dst := st.files[src]], st.dirs);
      if Valid(st) {
        forall f | f in st'.files
          ensures f != [] && f[|f| - 1] != '/' && f !in st'.dirs
        {
          if f != dst {
            assert f in st.files;
          }
        }
      }
    }
  }

  /** Writing a fresh temporary file and renaming it leaves only the target changed. */
  lemma ThroughFreshTemp(files: map<string, string>, temp: string, path: string, text: string)
    requires temp !in files
    ensures files[temp := ""][temp := text] == files[temp := text]
    ensures (files[temp := ""][temp := text] - {temp})[path := text] == files[path := text]
  {
    assert files[temp := ""][temp := text] - {temp} == files;
  }

  /** Writing to a file that exists keeps the store valid. */
  lemma ValidRewrite(st: Store, f: string, text: string)
    requires f in st.files
    ensures Valid(st) ==> Valid(st.(files := st.files[f := text]))
  {
    assert st.files[f := text].Keys == st.files.Keys;
  }

  /**
   * Lines 117-126: writes `text` to a fresh temporary file in the directory
   * of `path` and renames it onto `path`. When `mkstemp` raises nothing is
   * created; when `rename` raises the temporary file stays behind.
   */
  method WriteOut(path: string, text: string, suffix: string, st: Store) returns (ok: bool, st': Store)
    requires var dir := PosixPath.Dirname(path); IsDirectory(st, dir) ==> FreshTemp(st, dir, suffix)
    ensures ok == CanPublish(st, path)
    ensures st'.dirs == st.dirs
    ensures !IsDirectory(st, PosixPath.Dirname(path)) ==> st' == st
    ensures ok ==> st'.files == st.files[path := text]
    ensures IsDirectory(st, PosixPath.Dirname(path)) && !ok ==>
      st'.files == st.files[TempIn(PosixPath.Dirname(path), suffix) := text]
    ensures Valid(st) ==> Valid(st')
  {
    var made, temp;
    made, temp, st' := Mkstemp(st, PosixPath.Dirname(path), suffix);
    ok := false;
    if made {
      var written := st'.(files := st'.files[temp := text]);
      ValidRewrite(st', temp, text);
      ThroughFreshTemp(st.files, temp, path, text);
      assert written.files == st.files[temp := text] && written.dirs == st.dirs;
      assert RenameAllowed(written, path) == RenameAllowed(st, path);
      ok, st' := Rename(written, temp, path);
    }
  }

  /**
   * Runs the capture over the messages `packets` and, when the evaluate
   * result arrived, writes the entry (JSON metadata line, newline, page) out
   * under `cacheFilename`. When the channel runs out first nothing is
   * written. `encode` stands for `json.dump(metadata)`.
   */
  method ProcessPageAndStore(cacheFilename: string, packets: seq<Capture.Packet>,
                             encode: Capture.Metadata -> string, suffix: string, st: Store)
    returns (stored: bool, st': Store)
    requires var dir := PosixPath.Dirname(cacheFilename); IsDirectory(st, dir) ==> FreshTemp(st, dir, suffix)
    ensures stored == (Capture.Outcome(packets).done && CanPublish(st, cacheFilename))
    ensures st'.dirs == st.dirs
    ensures !Capture.Outcome(packets).done || !IsDirectory(st, PosixPath.Dirname(cacheFilename)) ==> st' == st
    ensures stored ==> st'.files == st.files[cacheFilename := EntryText(Capture.Outcome(packets), encode)]
    ensures Capture.Outcome(packets).done && IsDirectory(st, PosixPath.Dirname(cacheFilename)) && !stored ==>
      st'.files == st.files[TempIn(PosixPath.Dirname(cacheFilename), suffix) := EntryText(Capture.Outcome(packets), encode)]
    ensures Valid(st) ==> Valid(st')
  {
    var session := Capture.CaptureSession(packets);
    stored, st' := false, st;
    if session.done {
      stored, st' := WriteOut(cacheFilename, EntryText(session, encode), suffix, st);
    }
  }

  /**
   * The path a request renders is never a directory and never ends in '/'
   * unless it reaches no directory at all: once `mkstemp` has found the
   * dirname, `rename` onto a path that does not exist succeeds exactly when
   * its name fits.
   */
  lemma RenameAfterMkstemp(st: Store, p: string)
    requires !PosixPath.AllSlashes(p) && !Exists(st, p)
    requires IsDirectory(st, PosixPath.Dirname(p))
    ensures RenameAllowed(st, p) <==> NameFits(p)
  {
    if !NameFits(p) {
      return;
    }
    if p[|p| - 1] == '/' {
      PosixPath.DirnameOfTrailingSlash(p);
      assert false;
    }
    assert PosixPath.Canonical(p) == p;
  }

  /**
   * `get_url_prepared`: a missing or empty `url` gives `(None, None)`.
   * Otherwise the URL's cache path is rendered unless it exists, and the
   * pair `(url, path)` is returned; a render whose capture or write-out
   * raised is `RenderFailed`.
   */
  method GetUrlPrepared(storage: string, query: Option<string>, st: Store,
                        browser: seq<Capture.Packet>, encode: Capture.Metadata -> string, suffix: string)
    returns (r: Prepared, rendered: bool, st': Store)
    requires query.Some? && query.value != "" ==>
      var path := CacheKey.CachePath(storage, query.value);
      !Exists(st, path) && IsDirectory(st, PosixPath.Dirname(path)) ==> FreshTemp(st, PosixPath.Dirname(path), suffix)
    ensures query.None? || query == Some("") ==> r == MissingUrl && !rendered && st' == st
    ensures query.Some? && query.value != "" ==>
      var url, path, o := query.value, CacheKey.CachePath(storage, query.value), Capture.Outcome(browser);
      && rendered == !Exists(st, path)
      && (!rendered ==> r == Ready(url, path) && st' == st)
      && (rendered && o.done && IsDirectory(st, PosixPath.Dirname(path)) && NameFits(path) ==>
            r == Ready(url, path) &&
            st' == Store(st.files[path := EntryText(o, encode)], st.dirs))
      && (rendered && o.done && IsDirectory(st, PosixPath.Dirname(path)) && !NameFits(path) ==>
            r == RenderFailed(url, path) &&
            st' == Store(st.files[TempIn(PosixPath.Dirname(path), suffix) := EntryText(o, encode)], st.dirs))
      && (rendered && !(o.done && IsDirectory(st, PosixPath.Dirname(path))) ==>
            r == RenderFailed(url, path) && st' == st)
    ensures st'.dirs == st.dirs
    ensures r.Ready? ==> Exists(st', r.filename)
    ensures r.RenderFailed? ==> !Exists(st', r.filename)
    ensures Valid(st) ==> Valid(st')
  {
    if query.None? || query.value == "" {
      return MissingUrl, false, st;
    }
    var url := query.value;
    var path := CacheKey.CachePath(storage, url);
    rendered := !Exists(st, path);
    if !rendered {
      return Ready(url, path), rendered, st;
    }
    if IsDirectory(st, PosixPath.Dirname(path)) {
      RenameAfterMkstemp(st, path);
    }
    var stored;
    stored, st' := ProcessPageAndStore(path, browser, encode, suffix, st);
    r := if stored then Ready(url, path) else RenderFailed(url, path);
  }

  /** A path ending in '/' is never published: either it already names a directory, or `mkstemp` fails. */
  lemma TrailingSlashNeverPublished(st: Store, p: string)
    requires p != [] && p[|p| - 1] == '/' && !PosixPath.AllSlashes(p)
    ensures !CanPublish(st, p)
    ensures IsDirectory(st, PosixPath.Dirname(p)) ==> Exists(st, p)
  {
    PosixPath.DirnameOfTrailingSlash(p);
    var q := PosixPath.RStripSlashes(p);
    assert q != [] && q[|q| - 1] != '/';
    assert PosixPath.RStripSlashes(q) == q;
    assert !PosixPath.AllSlashes(q);
    assert PosixPath.Canonical(q) == q;
  }

  /**
   * The URL "ab?" under "/var/tmp" is never cached while the directory
   * "/var/tmp/data-YWI" is missing: every request renders, `mkstemp` raises,
   * and the store is left as it was.
   */
  method SlashKeyRequest(st: Store, browser: seq<Capture.Packet>, encode: Capture.Metadata -> string, suffix: string)
    returns (r: Prepared, st': Store)
    requires Valid(st) && "/var/tmp/data-YWI" !in st.dirs
    ensures r == RenderFailed("ab?", "/var/tmp/data-YWI/") && st' == st
  {
    CacheKey.SlashKeyPath();
    var path := "/var/tmp/data-YWI/";
    PosixPath.DirnameOfTrailingSlash(path);
    var rendered;
    r, rendered, st' := GetUrlPrepared("/var/tmp", Some("ab?"), st, browser, encode, suffix);
  }

  /**
   * A key without '/' is the last component of its path, so its length
   * decides: the name fits exactly when the URL has fewer than 184 UTF-8
   * bytes (183 bytes give a 252-byte name, 184 bytes a 256-byte one).
   */
  lemma LongKeyDoesNotFit(storage: string, url: string)
    requires '/' !in CacheKey.CacheName(url)
    ensures NameFits(CacheKey.CachePath(storage, url)) <==> |Utf8.Encode(url)| < 184
  {
    var name := CacheKey.CacheName(url);
    assert name[0] == 'd';
    assert CacheKey.CachePath(storage, url) == PosixPath.Join(storage, name);
    PosixPath.LastComponentOfJoin(storage, name);
    CacheKey.CacheNameAscii(url);
    CacheKey.CacheNameLength(url);
    NameLengthThreshold(|Utf8.Encode(url)|);
  }

  /** The arithmetic of the threshold: fewer than 184 bytes give a name of at most 255 characters. */
  lemma NameLengthThreshold(n: nat)
    ensures |CacheKey.PREFIX| + Base64.JoinedLength(n) <= NAME_MAX <==> n < 184
  {
    if 0 < n < 184 {
      assert (n + 2) / 3 <= 61 && (n - 1) / 57 <= 3;
    } else if n >= 184 {
      assert (n + 2) / 3 >= 62 && (n - 1) / 57 >= 3;
    }
  }

  /**
   * A URL of 184 UTF-8 bytes or more whose key has no '/' is never cached:
   * the render finishes and `mkstemp` succeeds in the storage directory,
   * but the rename raises ENAMETOOLONG. The temporary file stays behind
   * with the entry, and the path still does not exist, so the next request
   * renders again.
   */
  method LongKeyRequest(storage: string, url: string, st: Store,
                        browser: seq<Capture.Packet>, encode: Capture.Metadata -> string, suffix: string)
    returns (r: Prepared, st': Store)
    requires storage != [] && storage[|storage| - 1] != '/' && IsDirectory(st, storage)
    requires '/' !in CacheKey.CacheName(url) && |Utf8.Encode(url)| >= 184
    requires Capture.Outcome(browser).done && FreshTemp(st, storage, suffix)
    ensures r == RenderFailed(url, CacheKey.CachePath(storage, url))
    ensures st' == Store(st.files[TempIn(storage, suffix) := EntryText(Capture.Outcome(browser), encode)], st.dirs)
    ensures !Exists(st', CacheKey.CachePath(storage, url))
  {
    CacheKey.EncodeNonEmpty(url);
    LongKeyDoesNotFit(storage, url);
    CacheKey.PlainKeyInStorage(storage, url);
    var rendered;
    r, rendered, st' := GetUrlPrepared(storage, Some(url), st, browser, encode, suffix);
  }

  /** What a handler reads for `filename`: nothing if it is not a regular file, else the parsed entry. */
  function ReadCached(st: Store, filename: string): (e: Option<CacheEntry.Entry>)
    ensures e.Some? <==> filename in st.files
    ensures e.Some? ==> e.value.firstLine + e.value.page == CacheEntry.Translate(st.files[filename])
  {
    if filename in st.files then Some(CacheEntry.Read(st.files[filename])) else None
  }

  /** A published entry reads back as its metadata line and exactly its page. */
  lemma ReadAfterPublish(st: Store, path: string, metadataJson: string, page: string)
    requires '\n' !in metadataJson && '\r' !in metadataJson && '\r' !in page
    ensures ReadCached(st.(files := st.files[path := CacheEntry.Write(metadataJson, page)]), path)
         == Some(CacheEntry.Entry(metadataJson + "\n", page))
  {
    CacheEntry.RoundTrip(metadataJson, page);
  }

  /** Two random names give two temporary files. */
  lemma TempDistinct(dir: string, suffix: string, suffix2: string)
    requires suffix != suffix2
    ensures TempIn(dir, suffix) != TempIn(dir, suffix2)
  {
    var a, b := "temp-" + suffix, "temp-" + suffix2;
    assert a[0] == 't' && b[0] == 't';
    PosixPath.JoinInjective(dir, a, b);
    assert a[5..] == suffix && b[5..] == suffix2;
  }

  /**
   * Two requests for the same URL, each render drawing its own random name.
   * Once the first has returned a path, the second does not render again
   * and returns the same pair; when the first failed, the second renders
   * again.
   */
  method RepeatedRequest(storage: string, url: string, st: Store,
                         browser: seq<Capture.Packet>, encode: Capture.Metadata -> string,
                         suffix: string, suffix2: string)
    returns (first: Prepared, second: Prepared, renderedAgain: bool)
    requires url != "" && suffix != suffix2
    requires var path := CacheKey.CachePath(storage, url); var dir := PosixPath.Dirname(path);
      !Exists(st, path) && IsDirectory(st, dir) ==> FreshTemp(st, dir, suffix) && FreshTemp(st, dir, suffix2)
    ensures first.Ready? ==> second == first && !renderedAgain
    ensures first.RenderFailed? ==> renderedAgain
  {
    var rendered, st1, st2;
    first, rendered, st1 := GetUrlPrepared(storage, Some(url), st, browser, encode, suffix);
    var path := CacheKey.CachePath(storage, url);
    var dir := PosixPath.Dirname(path);
    if first.RenderFailed? && IsDirectory(st1, dir) {
      assert IsDirectory(st, dir) && !Exists(st, path);
      TempDistinct(dir, suffix, suffix2);
      assert FreshTemp(st1, dir, suffix2);
    }
    second, renderedAgain, st2 := GetUrlPrepared(storage, Some(url), st1, browser, encode, suffix2);
  }
}
