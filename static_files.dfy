/**
 * The static-file endpoint of api.c: `get_filename_ext`, the normalisation of the requested
 * URL into a file name, the MIME-type lookup, and the decision `callback_static_file` takes
 * once the file system has answered `realpath`, `access` and `fopen` (those answers are inputs).
 */
module StaticFiles {
  import opened Wrappers
  import opened CStrings

  // ---------------------------------------------------------------------------------------
  // get_filename_ext
  // ---------------------------------------------------------------------------------------

  /** The extension of a path as `get_filename_ext` returns it, read back as a string. */
  function FilenameExt(path: string): (ext: string)
    ensures ext == "*" || (0 < |ext| && ext[0] == '.' && '?' !in ext)
  {
    match LastIndex(path, '.')
    case None => "*"
    case Some(d) => if d == 0 then "*" else CutAt(path[d..], '?')
  }

  /** The answer is `"*"` exactly when no `.` stands after the first character. */
  lemma NoExtension(path: string)
    ensures FilenameExt(path) == "*" <==> forall d :: 0 < d < |path| ==> path[d] != '.'
  {
    match LastIndex(path, '.')
    case None =>
    case Some(d) =>
      if d > 0 {
        assert FilenameExt(path)[0] == '.';
      } else {
        forall k | 0 < k < |path| ensures path[k] != '.' {
          assert path[k] == path[1..][k - 1];
        }
      }
  }

  /**
   * Otherwise the answer is the suffix that starts at the last `.`, up to (not including)
   * the first `?` after it.
   */
  lemma ExtensionAfterLastDot(path: string, d: nat)
    requires 0 < d < |path| && path[d] == '.' && '.' !in path[d + 1..]
    ensures var ext := FilenameExt(path);
      0 < |ext| <= |path| - d && ext == path[d..d + |ext|] && '?' !in ext
      && (d + |ext| < |path| ==> path[d + |ext|] == '?')
  {
    assert path[d] in path;
    var r := LastIndex(path, '.').value;
    forall k | d < k < |path| ensures path[k] != '.' { assert path[k] == path[d + 1..][k - d - 1]; }
    forall k | r < k < |path| ensures path[k] != '.' { assert path[k] == path[r + 1..][k - r - 1]; }
    assert r == d;
    var ext := CutAt(path[d..], '?');
    assert path[d..][0] == '.';
    assert path[d..][..|ext|] == path[d..d + |ext|];
  }

  /** What `get_filename_ext` returns: the literal `"*"`, or a pointer to a `.` inside the caller's buffer. */
  datatype Extension = Star | DotAt(index: nat)

  /**
   * The effect `get_filename_ext` has on a buffer holding a C string at `before[start]`, when
   * `text` is the extension to be found: the answer reads as `text`, and the buffer is
   * unchanged apart from NUL written over the `?` that ends the extension.
   */
  ghost predicate ExtensionWritten(before: seq<char>, after: seq<char>, start: nat, ext: Extension, text: string)
    requires start < |before|
  {
    |after| == |before| &&
    match ext
    case Star => text == "*" && after == before
    case DotAt(i) =>
      start < i < start + |Terminated(before[start..])| && after[i] == '.' && Terminated(after[i..]) == text
      && var k := i + |text|;
      after == if k < |before| && before[k] == '?' then before[k := '\0'] else before
  }

  /**
   * `get_filename_ext` on the C string that starts at `buf[start]`: finds the last `.` and,
   * when a `?` follows it, writes NUL over that `?` in the caller's buffer.
   */
  method GetFilenameExt(buf: array<char>, start: nat) returns (ext: Extension)
    requires start < buf.Length && '\0' in buf[start..]
    modifies buf
    ensures ExtensionWritten(old(buf[..]), buf[..], start, ext, FilenameExt(Terminated(old(buf[start..]))))
  {
    ghost var before := buf[..];
    assert before[start..] == buf[start..];
    var path := Terminated(buf[start..]);
    var dot := LastIndex(path, '.');
    if dot.None? || dot.value == 0 {
      return Star;
    }
    var d := dot.value;
    CutExtension(before, start, d);
    var q := FirstIndex(path[d..], '?');
    if q.Some? {
      buf[start + d + q.value] := '\0';
      assert buf[..] == before[start + d + q.value := '\0'];
    } else {
      assert buf[..] == before;
    }
    assert buf[..] == CutExtensionBuffer(before, start, d);
    ext := DotAt(start + d);
  }

  /** The buffer after `get_filename_ext` found its last `.` at `start + d`. */
  ghost function CutExtensionBuffer(b: seq<char>, start: nat, d: nat): seq<char>
    requires start < |b| && d <= |Terminated(b[start..])|
  {
    match FirstIndex(Terminated(b[start..])[d..], '?')
    case None => b
    case Some(q) => b[start + d + q := '\0']
  }

  /** The buffer-level facts behind GetFilenameExt. */
  lemma CutExtension(b: seq<char>, start: nat, d: nat)
    requires start < |b| && '\0' in b[start..]
    requires LastIndex(Terminated(b[start..]), '.') == Some(d) && d > 0
    ensures ExtensionWritten(b, CutExtensionBuffer(b, start, d), start, DotAt(start + d),
      FilenameExt(Terminated(b[start..])))
  {
    var path := Terminated(b[start..]);
    match FirstIndex(path[d..], '?')
    case None =>
      NoQuery(b, start, d);
    case Some(q) =>
      Query(b, start, d, q);
  }

  /** The last `.` of the C string at `b[start]` is at distance d, and no `?` follows it. */
  lemma NoQuery(b: seq<char>, start: nat, d: nat)
    requires start < |b| && '\0' in b[start..]
    requires LastIndex(Terminated(b[start..]), '.') == Some(d) && d > 0
    requires FirstIndex(Terminated(b[start..])[d..], '?').None?
    ensures ExtensionWritten(b, b, start, DotAt(start + d), Terminated(b[start..])[d..])
  {
    var path := Terminated(b[start..]);
    TerminatedSuffix(b[start..], d);
    assert b[start..][d..] == b[start + d..];
    assert path == b[start..][..|path|];
    assert b[start..][|path|] == '\0';
    ExtensionUncut(b, start, d, path[d..]);
  }

  /** The last `.` of the C string at `b[start]` is at distance d, and the first `?` after it at d + q. */
  lemma Query(b: seq<char>, start: nat, d: nat, q: nat)
    requires start < |b| && '\0' in b[start..]
    requires LastIndex(Terminated(b[start..]), '.') == Some(d) && d > 0
    requires FirstIndex(Terminated(b[start..])[d..], '?') == Some(q)
    ensures ExtensionWritten(b, b[start + d + q := '\0'], start, DotAt(start + d), Terminated(b[start..])[d..][..q])
  {
    var path := Terminated(b[start..]);
    var tail := b[start + d..];
    TerminatedSuffix(b[start..], d);
    assert b[start..][d..] == tail;
    assert path == b[start..][..|path|];
    CutInPlace(tail, '?', q);
    ExtensionCut(b, start, d, q, path[d..][..q]);
  }

  /** No `?` follows the last `.`: nothing is written. */
  lemma ExtensionUncut(b: seq<char>, start: nat, d: nat, text: string)
    requires start < |b| && 0 < d < |Terminated(b[start..])|
    requires b[start + d] == '.' && Terminated(b[start + d..]) == text
    requires start + d + |text| < |b| && b[start + d + |text|] == '\0'
    ensures ExtensionWritten(b, b, start, DotAt(start + d), text)
  {
    var k := start + d + |text|;
    assert !(k < |b| && b[k] == '?');
  }

  /** A `?` follows the last `.` at distance `q`: NUL is written over it. */
  lemma ExtensionCut(b: seq<char>, start: nat, d: nat, q: nat, text: string)
    requires start < |b| && 0 < d < |Terminated(b[start..])|
    requires start + d + q < |b| && 0 < q && b[start + d + q] == '?' && b[start + d] == '.'
    requires |text| == q && Terminated(b[start + d..][q := '\0']) == text
    ensures ExtensionWritten(b, b[start + d + q := '\0'], start, DotAt(start + d), text)
  {
    var after := b[start + d + q := '\0'];
    assert after[start + d..] == b[start + d..][q := '\0'];
  }

  // ---------------------------------------------------------------------------------------
  // Request path normalisation
  // ---------------------------------------------------------------------------------------

  /**
   * Where the pointer `file_requested` stops before the cuts: leading `/` skipped, then as
   * many characters as `url_prefix` has (whatever they are), then `/` again. None stands for
   * the case where skipping the prefix would move the pointer past the end of the copied URL,
   * which C leaves undefined. What is left is the end of the URL and does not start with `/`.
   */
  function SkipPrefix(url: string, prefix: string): (tail: Option<string>)
    ensures tail.None? <==> SlashesEnd(url, 0) + |prefix| > |url|
    ensures tail.Some? ==>
      |tail.value| <= |url| && tail.value == url[|url| - |tail.value|..]
      && (|tail.value| > 0 ==> tail.value[0] != '/')
    ensures tail.Some? ==>
      var skipped := SlashesEnd(url, 0) + |prefix|;
      skipped <= |url| - |tail.value|
      && forall k :: skipped <= k < |url| - |tail.value| ==> url[k] == '/'
  {
    var p := SlashesEnd(url, 0);
    if p + |prefix| > |url| then None
    else
      SlashesRun(url, p + |prefix|);
      Some(url[SlashesEnd(url, p + |prefix|)..])
  }

  /** The name made of the rest of the URL: cut at `#`, then at `?`; an empty name becomes `index.html`. */
  function NameOf(tail: string): (name: string)
    ensures name == DefaultName || (0 < |name| <= |tail| && name == tail[..|name|])
  {
    var cut := CutAt(CutAt(tail, '#'), '?');
    if cut == "" || cut == "/" then DefaultName else cut
  }

  /**
   * The name is the part of the tail before its first `#` or `?`, or `index.html` when
   * that part is empty or a lone `/`.
   */
  lemma NameBeforeFragmentOrQuery(tail: string, cut: string)
    requires |cut| <= |tail| && cut == tail[..|cut|] && '#' !in cut && '?' !in cut
    requires |cut| < |tail| ==> tail[|cut|] == '#' || tail[|cut|] == '?'
    ensures NameOf(tail) == if cut == "" || cut == "/" then DefaultName else cut
  {
    var unhashed := CutAt(tail, '#');
    forall k | 0 <= k < |cut| ensures tail[k] != '#' {
      assert tail[k] == cut[k];
    }
    assert |cut| <= |unhashed|;
    assert cut == unhashed[..|cut|];
    if |cut| < |unhashed| {
      assert unhashed[|cut|] == tail[|cut|];
    }
    CutAtUnique(unhashed, '?', cut);
  }

  /** The file name `callback_static_file` derives from the request URL. */
  function NormalizedName(url: string, prefix: string): (name: Option<string>)
    ensures name.Some? <==> SkipPrefix(url, prefix).Some?
  {
    match SkipPrefix(url, prefix)
    case None => None
    case Some(tail) => Some(NameOf(tail))
  }

  /** Cutting at `#` and then at `?` leaves a prefix free of both. */
  lemma CutFragmentAndQuery(tail: string)
    ensures var cut := CutAt(CutAt(tail, '#'), '?');
      cut == tail[..|cut|] && '#' !in cut && '?' !in cut
  {
    var unhashed := CutAt(tail, '#');
    var cut := CutAt(unhashed, '?');
    assert forall k :: 0 <= k < |cut| ==> cut[k] == unhashed[k];
  }

  /**
   * The `"/"` test at api.c:536 never fires: the loop before it has removed every leading `/`,
   * so what the cuts leave is empty or starts with something else.
   */
  lemma SlashNameUnreachable(tail: string)
    requires |tail| > 0 ==> tail[0] != '/'
    ensures CutAt(CutAt(tail, '#'), '?') != "/"
  {
  }

  /**
   * The normalised name is never empty, does not start with `/` and contains no `#` or `?`.
   */
  lemma NormalizedNameShape(url: string, prefix: string)
    requires NormalizedName(url, prefix).Some?
    ensures var name := NormalizedName(url, prefix).value;
      0 < |name| && name[0] != '/' && '#' !in name && '?' !in name
  {
    var tail := SkipPrefix(url, prefix).value;
    var cut := CutAt(CutAt(tail, '#'), '?');
    CutFragmentAndQuery(tail);
    if cut != "" && cut != "/" {
      assert cut[0] == tail[0];
    } else {
      DefaultNameShape();
    }
  }

  /** The name served for an empty request path (api.c:538). */
  const DefaultName: string := "index.html"

  lemma DefaultNameShape()
    ensures |DefaultName| == 10 && DefaultName[0] == 'i' && '#' !in DefaultName && '?' !in DefaultName
  {
    assert DefaultName == ['i'] + "ndex.html";
  }

  /** Apart from the `index.html` default, the name is a piece of the URL. */
  lemma NormalizedNameWithin(url: string, prefix: string)
    requires NormalizedName(url, prefix).Some?
    ensures var name := NormalizedName(url, prefix).value;
      name == DefaultName || Within(name, url)
  {
    var tail := SkipPrefix(url, prefix).value;
    var cut := CutAt(CutAt(tail, '#'), '?');
    CutFragmentAndQuery(tail);
    if cut != "" && cut != "/" {
      var k := |url| - |tail|;
      assert url[k..k + |cut|] == cut;
    }
  }

  /** `piece` occurs in `whole` as a contiguous run of characters. */
  predicate Within(piece: string, whole: string) {
    exists i, j :: 0 <= i <= j <= |whole| && whole[i..j] == piece
  }

  /**
   * The normalisation as `callback_static_file` runs it: a `strdup` copy of the URL, a
   * pointer advanced by two `while` loops and by `strlen(url_prefix)`, then the cuts.
   */
  method StaticFileName(url: string, prefix: string) returns (name: Option<string>)
    requires NoNul(url)
    ensures name == NormalizedName(url, prefix)
  {
    var buf := StrDup(url);
    assert buf[..buf.Length - 1] == url;
    var p := SkipSlashes(buf, 0);
    if p + |prefix| > |url| {
      assert SkipPrefix(url, prefix).None?;
      return None;
    }
    p := SkipSlashes(buf, p + |prefix|);
    assert SkipPrefix(url, prefix) == Some(url[p..]);
    assert buf[p..buf.Length - 1] == url[p..];
    var cut := CutRequest(buf, p);
    name := Some(cut);
  }

  /** `strdup`: a fresh buffer holding the C string and its NUL. */
  method StrDup(s: string) returns (buf: array<char>)
    ensures fresh(buf) && buf[..] == s + ['\0']
  {
    buf := new char[|s| + 1](i => if 0 <= i < |s| then s[i] else '\0');
    assert buf[..] == s + ['\0'];
  }

  /** `while (file_requested[0] == '/') file_requested++;` on the copied URL, from `buf[from]` on. */
  method SkipSlashes(buf: array<char>, from: nat) returns (p: nat)
    requires from < buf.Length && buf[buf.Length - 1] == '\0'
    ensures p == SlashesEnd(buf[..buf.Length - 1], from) && p < buf.Length
  {
    ghost var s := buf[..buf.Length - 1];
    p := from;
    while buf[p] == '/'
      invariant from <= p < buf.Length
      invariant forall k :: from <= k < p ==> s[k] == '/'
      decreases buf.Length - p
    {
      p := p + 1;
    }
    SlashesEndIs(s, from, p);
  }

  /**
   * The cuts of `callback_static_file` on the copied URL from `buf[p]` on: NUL over the
   * first `#`, then over the first `?`, and `index.html` when nothing is left.
   */
  method CutRequest(buf: array<char>, p: nat) returns (name: string)
    requires p < buf.Length && buf[buf.Length - 1] == '\0' && NoNul(buf[p..buf.Length - 1])
    modifies buf
    ensures name == NameOf(old(buf[p..buf.Length - 1]))
    ensures var tail := old(buf[p..buf.Length - 1]);
      buf[..] == CutOnce(CutOnce(old(buf[..]), p, tail, '#'), p, CutAt(tail, '#'), '?')
  {
    ghost var b0 := buf[..];
    ghost var tail := buf[p..buf.Length - 1];
    TerminatedCopy(b0, p);
    assert tail == b0[p..|b0| - 1] && buf[p..] == b0[p..];
    CutInBuffer(buf, p, '#', tail);
    ghost var b1 := buf[..];
    CutInBuffer(buf, p, '?', CutAt(tail, '#'));
    assert buf[..] == CutOnce(b1, p, CutAt(tail, '#'), '?');
    var cut := Terminated(buf[p..]);
    assert cut == CutAt(CutAt(tail, '#'), '?');
    if cut == "" || cut == "/" {
      name := DefaultName;
    } else {
      name := cut;
    }
  }

  /** The buffer after `if (strchr(s, c) != NULL) *strchr(s, c) = '\0';` on the string s at `b[p]`. */
  ghost function CutOnce(b: seq<char>, p: nat, s: string, c: char): seq<char>
  {
    var cut := CutAt(s, c);
    if |cut| < |s| && p + |cut| < |b| then b[p + |cut| := '\0'] else b
  }

  /**
   * `if (strchr(s, c) != NULL) *strchr(s, c) = '\0';` on the C string at `buf[p]`: NUL
   * over its first `c`, if any, and nothing else written.
   */
  method CutInBuffer(buf: array<char>, p: nat, c: char, ghost s: string)
    requires p < buf.Length && '\0' in buf[p..] && c != '\0' && Terminated(buf[p..]) == s
    modifies buf
    ensures '\0' in buf[p..]
    ensures Terminated(buf[p..]) == CutAt(s, c)
    ensures buf[..] == CutOnce(old(buf[..]), p, s, c)
  {
    var i := FirstIndex(Terminated(buf[p..]), c);
    if i.Some? {
      CutInPlace(buf[p..], c, i.value);
      buf[p + i.value] := '\0';
      assert buf[p..] == old(buf[p..])[i.value := '\0'];
      assert buf[p..][i.value] == '\0';
    } else {
      CutAtUnique(Terminated(buf[p..]), c, Terminated(buf[p..]));
    }
  }

  /** The C string stored from `b[p]` up to the final NUL reads back as itself. */
  lemma TerminatedCopy(b: seq<char>, p: nat)
    requires p < |b| && b[|b| - 1] == '\0' && NoNul(b[p..|b| - 1])
    ensures Terminated(b[p..]) == b[p..|b| - 1]
  {
    assert b[p..] == b[p..|b| - 1] + ['\0'] + [];
    TerminatedString(b[p..|b| - 1], []);
  }


  // ---------------------------------------------------------------------------------------
  // MIME types
  // ---------------------------------------------------------------------------------------

  /** A ulfius `struct _u_map`: keys with their values, in insertion order. */
  type UMap = seq<(string, string)>

  /** ASCII lower-casing, the comparison `u_map_get_case` makes. */
  function Lower(c: char): char {
    if 'A' <= c <= 'Z' then (c as int + 32) as char else c
  }

  predicate SameIgnoringCase(a: string, b: string) {
    |a| == |b| && forall i :: 0 <= i < |a| ==> Lower(a[i]) == Lower(b[i])
  }

  /** `u_map_get_case`: the value of the first key equal to `key` up to ASCII case, or None (NULL). */
  function GetCase(m: UMap, key: string): (v: Option<string>)
    ensures v.None? <==> forall i :: 0 <= i < |m| ==> !SameIgnoringCase(m[i].0, key)
    ensures v.Some? ==> exists i :: 0 <= i < |m| && SameIgnoringCase(m[i].0, key) && m[i].1 == v.value
  {
    if |m| == 0 then None
    else if SameIgnoringCase(m[0].0, key) then Some(m[0].1)
    else
      var v := GetCase(m[1..], key);
      assert forall i :: 1 <= i < |m| ==> m[i] == m[1..][i - 1];
      v
  }

  /** `u_map_get`: the value of the first key equal to `key`, or None (NULL). */
  function Get(m: UMap, key: string): (v: Option<string>)
    ensures v.None? <==> forall i :: 0 <= i < |m| ==> m[i].0 != key
    ensures v.Some? ==> exists i :: 0 <= i < |m| && m[i].0 == key && m[i].1 == v.value
  {
    if |m| == 0 then None
    else if m[0].0 == key then Some(m[0].1)
    else
      var v := Get(m[1..], key);
      assert forall i :: 1 <= i < |m| ==> m[i] == m[1..][i - 1];
      v
  }

  /** The MIME table `api_init` fills (api.c:605-616). */
  const MimeTypes: UMap := [
    ("*", "application/octet-stream"),
    (".html", "text/html"),
    (".css", "text/css"),
    (".js", "application/javascript"),
    (".json", "application/json"),
    (".png", "image/png"),
    (".gif", "image/gif"),
    (".jpeg", "image/jpeg"),
    (".jpg", "image/jpeg"),
    (".ttf", "font/ttf"),
    (".woff", "font/woff"),
    (".ico", "image/x-icon")
  ]

  /** The Content-Type header: the value for the extension ignoring case, else the value for `"*"`. */
  function ContentType(mime: UMap, ext: string): (t: Option<string>)
    ensures GetCase(mime, ext).Some? ==> t == GetCase(mime, ext)
    ensures GetCase(mime, ext).None? ==> t == Get(mime, "*")
    ensures t.Some? ==> exists i :: 0 <= i < |mime| && mime[i].1 == t.value
    ensures t.None? ==> Get(mime, "*").None?
  {
    match GetCase(mime, ext)
    case Some(v) => Some(v)
    case None => Get(mime, "*")
  }

  lemma {:induction false} SameIgnoringCaseTransitive(a: string, b: string, c: string)
    requires SameIgnoringCase(a, b) && SameIgnoringCase(b, c)
    ensures SameIgnoringCase(a, c)
  {
    forall i | 0 <= i < |a| ensures Lower(a[i]) == Lower(c[i]) {
      assert Lower(a[i]) == Lower(b[i]);
    }
  }

  /** Extensions that differ only in ASCII case get the same Content-Type. */
  lemma {:induction false} ContentTypeIgnoresCase(mime: UMap, a: string, b: string)
    requires SameIgnoringCase(a, b)
    ensures ContentType(mime, a) == ContentType(mime, b)
  {
    GetCaseIgnoresCase(mime, a, b);
  }

  lemma {:induction false} GetCaseIgnoresCase(m: UMap, a: string, b: string)
    requires SameIgnoringCase(a, b)
    ensures GetCase(m, a) == GetCase(m, b)
  {
    if |m| > 0 {
      SameIgnoringCaseTransitive(b, a, a);
      assert SameIgnoringCase(b, a) by {
        forall i | 0 <= i < |b| ensures Lower(b[i]) == Lower(a[i]) { }
      }
      if SameIgnoringCase(m[0].0, a) {
        SameIgnoringCaseTransitive(m[0].0, a, b);
      } else if SameIgnoringCase(m[0].0, b) {
        SameIgnoringCaseTransitive(m[0].0, b, a);
      } else {
        GetCaseIgnoresCase(m[1..], a, b);
      }
    }
  }

  /**
   * With the table of `api_init` every file gets a Content-Type: the listed extensions in any
   * case, and `application/octet-stream` for everything else.
   */
  lemma DefaultContentTypes(ext: string)
    ensures ContentType(MimeTypes, ext).Some?
    ensures ContentType(MimeTypes, ".HTML") == Some("text/html")
    ensures ContentType(MimeTypes, ".zip") == Some("application/octet-stream")
    ensures (forall i :: 0 <= i < |MimeTypes| ==> !SameIgnoringCase(MimeTypes[i].0, ext)) ==>
      ContentType(MimeTypes, ext) == Some("application/octet-stream")
  {
    assert SameIgnoringCase(".HTML", ".html");
    assert !SameIgnoringCase("*", ".HTML");
    assert MimeTypes[0].0 == "*";
    var zip := ".zip";
    forall i | 0 <= i < |MimeTypes| ensures !SameIgnoringCase(MimeTypes[i].0, zip) {
      assert Lower(zip[1]) == 'z';
    }
  }

  // ---------------------------------------------------------------------------------------
  // The decision of callback_static_file
  // ---------------------------------------------------------------------------------------

  /**
   * `struct static_file_config`; a NULL `files_path` or `redirect_on_404` is None. The
   * `url_prefix` goes to `strlen` unchecked at api.c:522, so it is taken to be non-NULL.
   */
  datatype StaticConfig = StaticConfig(
    filesPath: Option<string>,
    urlPrefix: string,
    mimeTypes: UMap,
    headers: UMap,
    redirectOn404: Option<string>)

  /**
   * The answers of the file system for a path: `realpath` (None for NULL), whether `access`
   * succeeds, and whether `fopen` succeeds.
   */
  datatype FileSystem = FileSystem(
    realPath: string -> Option<string>,
    accessible: string -> bool,
    opens: string -> bool)

  /** What the callback does to the response and what it returns. */
  datatype StaticReply =
    | Untouched          // U_CALLBACK_CONTINUE, response left as it was
    | ConfigError        // U_CALLBACK_ERROR
    | Stream(path: string, contentType: Option<string>, headers: UMap)  // 200, the file's bytes as body
    | NotFound(message: string)   // 404 with a text body
    | Redirect(location: string)  // 302 with a Location header
    | Undefined          // the C code has undefined behaviour here

  /** The answer for a file that is not served: 404 with `message`, or 302 to `redirect_on_404`. */
  function Missing(c: StaticConfig, message: string): (reply: StaticReply)
    ensures reply.NotFound? || reply.Redirect?
    ensures reply.Redirect? <==> c.redirectOn404.Some?
  {
    match c.redirectOn404
    case None => NotFound(message)
    case Some(location) => Redirect(location)
  }

  /** The contents of `msprintf("%s/%s", files_path, file_requested)`. */
  function FilePath(root: string, name: string): string {
    root + "/" + name
  }

  /**
   * `callback_static_file` with a NULL `realpath` answer read as "the file is missing".
   * The containment test `strncmp(files_path, real_path, strlen(files_path)) == 0` holds
   * exactly when `files_path` is a prefix of the resolved path.
   */
  function StaticFile(position: nat, cfg: Option<StaticConfig>, url: string, fs: FileSystem): (reply: StaticReply)
    requires NoNul(url)
    ensures reply.ConfigError? <==> position == 0 && (cfg.None? || cfg.value.filesPath.None?)
    ensures reply.Undefined? <==>
      position == 0 && cfg.Some? && cfg.value.filesPath.Some? && SlashesEnd(url, 0) + |cfg.value.urlPrefix| > |url|
    ensures reply.Stream? ==>
      cfg.Some? && NormalizedName(url, cfg.value.urlPrefix).Some? && reply.headers == cfg.value.headers
      && reply.contentType == ContentType(cfg.value.mimeTypes, FilenameExt(NormalizedName(url, cfg.value.urlPrefix).value))
  {
    if position > 0 then Untouched
    else if cfg.None? || cfg.value.filesPath.None? then ConfigError
    else
      var c := cfg.value;
      var root := c.filesPath.value;
      match NormalizedName(url, c.urlPrefix)
      case None => Undefined
      case Some(name) =>
        var path := FilePath(root, name);
        match fs.realPath(path)
        case None => Missing(c, "File not found")
        case Some(resolved) =>
          if root <= resolved then
            if fs.accessible(path) then
              if fs.opens(path) then Stream(path, ContentType(c.mimeTypes, FilenameExt(name)), c.headers)
              else Untouched
            else Missing(c, "File not found")
          else Missing(c, "file not found")
  }

  /** `callback_static_file` as written: a NULL `realpath` answer is passed to `strncmp`. */
  function StaticFileAsWritten(position: nat, cfg: Option<StaticConfig>, url: string, fs: FileSystem): (reply: StaticReply)
    requires NoNul(url)
    ensures reply != StaticFile(position, cfg, url, fs) ==> reply.Undefined?
    ensures reply.Undefined? <==>
      position == 0 && cfg.Some? && cfg.value.filesPath.Some? &&
      (NormalizedName(url, cfg.value.urlPrefix).None? ||
       fs.realPath(FilePath(cfg.value.filesPath.value, NormalizedName(url, cfg.value.urlPrefix).value)).None?)
  {
    if position == 0 && cfg.Some? && cfg.value.filesPath.Some? then
      match NormalizedName(url, cfg.value.urlPrefix)
      case Some(name) =>
        if fs.realPath(FilePath(cfg.value.filesPath.value, name)).None? then Undefined
        else StaticFile(position, cfg, url, fs)
      case None => Undefined
    else StaticFile(position, cfg, url, fs)
  }

  /** `realpath` resolved `path` to a place under `root`, and `access` found the file. */
  predicate Servable(root: string, path: string, fs: FileSystem) {
    fs.realPath(path).Some? && root <= fs.realPath(path).value && fs.accessible(path)
  }

  /** Before any file is looked at: a later callback position, a missing configuration, an overlong prefix. */
  lemma EarlyReturns(position: nat, cfg: Option<StaticConfig>, url: string, fs: FileSystem)
    requires NoNul(url)
    ensures position > 0 ==> StaticFile(position, cfg, url, fs) == Untouched
    ensures position == 0 && (cfg.None? || cfg.value.filesPath.None?) ==>
      StaticFile(position, cfg, url, fs) == ConfigError
    ensures (position == 0 && cfg.Some? && cfg.value.filesPath.Some?
               && SlashesEnd(url, 0) + |cfg.value.urlPrefix| > |url|) ==>
            StaticFile(position, cfg, url, fs) == Undefined
  {
  }

  /**
   * A file is streamed, with status 200, only when its resolved path lies under `files_path`,
   * the file exists and opens; when it opens not, the response is left alone; a file outside
   * `files_path`, or missing, gets 404 or the redirect.
   */
  lemma Containment(c: StaticConfig, url: string, fs: FileSystem)
    requires NoNul(url) && c.filesPath.Some? && NormalizedName(url, c.urlPrefix).Some?
    ensures var root := c.filesPath.value;
      var path := FilePath(root, NormalizedName(url, c.urlPrefix).value);
      var reply := StaticFile(0, Some(c), url, fs);
      (reply.Stream? <==> Servable(root, path, fs) && fs.opens(path))
      && (reply.Stream? ==> reply.path == path)
      && (reply.Untouched? <==> Servable(root, path, fs) && !fs.opens(path))
      && (!Servable(root, path, fs) ==> reply.NotFound? || reply.Redirect?)
      && (reply.Redirect? ==> c.redirectOn404 == Some(reply.location))
  {
  }

  /** The two 404 texts: `file not found` for a path that resolves outside `files_path`, `File not found` otherwise. */
  lemma NotFoundMessages(c: StaticConfig, url: string, fs: FileSystem)
    requires NoNul(url) && c.filesPath.Some? && NormalizedName(url, c.urlPrefix).Some?
    requires c.redirectOn404.None?
    ensures var root := c.filesPath.value;
      var path := FilePath(root, NormalizedName(url, c.urlPrefix).value);
      var outside := fs.realPath(path).Some? && !(root <= fs.realPath(path).value);
      var reply := StaticFile(0, Some(c), url, fs);
      (reply == NotFound("file not found") <==> outside)
      && (reply == NotFound("File not found") <==> !outside && !Servable(root, path, fs))
  {
  }

  /**
   * A request for a file that does not exist: `realpath` answers NULL and the code as written
   * hands that NULL to `strncmp`, where the corrected reading answers 404.
   */
  lemma MissingFileReachesStrncmpWithNull()
    ensures var cfg := Some(StaticConfig(Some("/srv/www"), "", MimeTypes, [], None));
      var fs := FileSystem(p => None, p => false, p => false);
      StaticFileAsWritten(0, cfg, "/missing.html", fs) == Undefined
      && StaticFile(0, cfg, "/missing.html", fs) == NotFound("File not found")
  {
    var url := "/missing.html";
    assert SlashesEnd(url, 0) == 1 by {
      assert url[1] == 'm';
    }
    assert NoNul(url);
  }
}
