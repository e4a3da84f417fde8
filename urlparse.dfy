/** The parts of Python's `urllib.parse` and `posixpath` the crawler calls:
    `urlparse` (the generic syntax of section 3 of RFC 3986, split the way
    CPython's `urlsplit` splits it), `urldefrag`, `os.path.basename` and
    `os.path.splitext`.

    `urlsplit` cuts the URL from the left: scheme, `//authority`, `#fragment`,
    `?query`. The functions below record where each cut falls in the original
    string, so every component is a single slice of the input. */
module UrlParse {
  import opened Text

  /** The six components `urlparse` returns. */
  datatype UrlParts = UrlParts(
    scheme: string, netloc: string, path: string, params: string, query: string, fragment: string)

  /** `urllib.parse.scheme_chars`. */
  predicate IsSchemeChar(c: char) {
    IsAsciiLetter(c) || '0' <= c <= '9' || c == '+' || c == '-' || c == '.'
  }

  /** `urllib.parse.uses_params`: schemes whose last path segment may carry `;params`. */
  const UsesParams: set<string> := {"", "ftp", "hdl", "prospero", "http", "imap", "https",
    "shttp", "rtsp", "rtsps", "rtspu", "sip", "sips", "mms", "sftp", "tel"}

  /** The delimiters that end the authority (`_splitnetloc`). */
  const AuthorityEnd: set<char> := {'/', '?', '#'}

  /** The delimiters that end the path. */
  const PathEnd: set<char> := {'?', '#'}

  /** The first `i` characters of `url` form a scheme: non-empty, starting
      with an ASCII letter, scheme characters only, and followed by more text. */
  predicate IsSchemePrefix(url: string, i: nat) {
    0 < i < |url| && IsAsciiLetter(url[0]) && forall j | 0 <= j < i :: IsSchemeChar(url[j])
  }

  /** Where the text after `scheme:` starts; 0 when `urlsplit` finds no scheme
      (no `:`, or the text before the first `:` is not a scheme). */
  function SchemeEnd(url: string): (n: nat)
    ensures n <= |url|
    ensures n > 0 ==> url[n - 1] == ':' && IsSchemePrefix(url, n - 1)
  {
    var colon := FindFrom(url, {':'}, 0);
    if IsSchemePrefix(url, colon) then colon + 1 else 0
  }

  /** The text from `n` on starts with `//`, so an authority follows. */
  predicate HasAuthority(url: string, n: nat) {
    n + 2 <= |url| && url[n] == '/' && url[n + 1] == '/'
  }

  /** Where the authority ends: at the first `/`, `?` or `#` after `//`. */
  function NetlocEnd(url: string): (n: nat)
    ensures SchemeEnd(url) <= n <= |url|
    ensures HasAuthority(url, SchemeEnd(url)) ==> SchemeEnd(url) + 2 <= n
  {
    var s := SchemeEnd(url);
    if HasAuthority(url, s) then FindFrom(url, AuthorityEnd, s + 2) else s
  }

  /** Where the path ends: at the first `?` or `#` after the authority. */
  function PathEndAt(url: string): (n: nat)
    ensures NetlocEnd(url) <= n <= |url|
  {
    FindFrom(url, PathEnd, NetlocEnd(url))
  }

  /** Where the fragment's `#` is; `|url|` when there is none. */
  function FragmentAt(url: string): (n: nat)
    ensures PathEndAt(url) <= n <= |url|
    ensures n < |url| ==> url[n] == '#'
  {
    var q := PathEndAt(url);
    if q < |url| && url[q] == '?' then FindFrom(url, {'#'}, q + 1) else q
  }

  /** `_splitparams`: `;params` are cut from the last path segment, at the
      first `;` from the last `/` on. */
  function SplitParams(path: string): (r: (string, string))
    ensures r.0 == path ==> r.1 == ""
    ensures r.0 != path ==> path == r.0 + ";" + r.1
  {
    var slash := RFind(path, '/');
    var i := FindFrom(path, {';'}, if slash >= 0 then slash else 0);
    if i < |path| then
      assert path[..i] + ";" + path[i + 1..] == path;
      (path[..i], path[i + 1..])
    else (path, "")
  }

  /** The scheme, lower-cased; "" when there is none. */
  function Scheme(url: string): (r: string)
    ensures forall i | 0 <= i < |r| :: IsSchemeChar(r[i]) && !('A' <= r[i] <= 'Z')
  {
    var s := SchemeEnd(url);
    if s == 0 then "" else Lower(url[..s - 1])
  }

  /** The authority after `//`; "" when there is none. */
  function Netloc(url: string): (r: string)
    ensures forall i | 0 <= i < |r| :: r[i] !in AuthorityEnd
  {
    var s, n := SchemeEnd(url), NetlocEnd(url);
    if HasAuthority(url, s) then
      assert forall i | s + 2 <= i < n :: url[i] !in AuthorityEnd;
      url[s + 2..n]
    else ""
  }

  /** The path with its `;params` still attached. */
  function PathAndParams(url: string): string {
    url[NetlocEnd(url)..PathEndAt(url)]
  }

  /** The text between `?` and `#`. */
  function Query(url: string): string {
    var q, f := PathEndAt(url), FragmentAt(url);
    if q < f then url[q + 1..f] else ""
  }

  /** The text after the first `#` that follows the authority. */
  function Fragment(url: string): (r: string)
    ensures r != "" ==> FragmentAt(url) < |url|
  {
    var f := FragmentAt(url);
    if f < |url| then url[f + 1..] else ""
  }

  /** `urlparse(url)`: the components above, with `;params` split off the
      path for the schemes that use them. */
  function Parse(url: string): (p: UrlParts)
    ensures p.scheme == Scheme(url) && p.netloc == Netloc(url)
    ensures p.query == Query(url) && p.fragment == Fragment(url)
    ensures (p.path, p.params) == (PathAndParams(url), "") || p.path + ";" + p.params == PathAndParams(url)
    ensures Scheme(url) !in UsesParams ==> (p.path, p.params) == (PathAndParams(url), "")
    ensures forall i | 0 <= i < |p.params| :: p.params[i] != '/'
  {
    var scheme, path := Scheme(url), PathAndParams(url);
    var (path', params) := if scheme in UsesParams && ';' in path then SplitParams(path) else (path, "");
    UrlParts(scheme, Netloc(url), path', params, Query(url), Fragment(url))
  }

  /** `urldefrag(url)[0]`: the URL with its fragment (section 3.5 of RFC 3986)
      removed, that is, everything from the first `#` on. */
  function Defrag(url: string): (r: string)
    ensures '#' !in r
    ensures StartsWith(url, r)
    ensures '#' !in url ==> r == url
  {
    url[..FindFrom(url, {'#'}, 0)]
  }

  /** The scheme is read before any `#`, so cutting the fragment keeps it. */
  lemma SchemeEndDefrag(url: string)
    ensures SchemeEnd(Defrag(url)) == SchemeEnd(url) <= |Defrag(url)|
  {
    var k := FindFrom(url, {'#'}, 0);
    var colon := FindFrom(url, {':'}, 0);
    FindFromPrefix(url, {':'}, 0, k);
    if colon < k {
      assert IsSchemePrefix(Defrag(url), colon) == IsSchemePrefix(url, colon);
    }
  }

  /** The authority ends at the latest at the first `#`, so cutting the
      fragment keeps it. */
  lemma NetlocEndDefrag(url: string)
    ensures NetlocEnd(Defrag(url)) == NetlocEnd(url) <= |Defrag(url)|
    ensures HasAuthority(Defrag(url), SchemeEnd(url)) == HasAuthority(url, SchemeEnd(url))
  {
    var k, d := FindFrom(url, {'#'}, 0), Defrag(url);
    SchemeEndDefrag(url);
    var s := SchemeEnd(url);
    if HasAuthority(url, s) {
      assert url[s] != '#' && url[s + 1] != '#';
      assert HasAuthority(d, s);
      FindFromPrefix(url, AuthorityEnd, s + 2, k);
    }
  }

  /** Likewise the path ends at the latest at the first `#`. */
  lemma PathEndDefrag(url: string)
    ensures PathEndAt(Defrag(url)) == PathEndAt(url) <= |Defrag(url)|
  {
    NetlocEndDefrag(url);
    FindFromPrefix(url, PathEnd, NetlocEnd(url), FindFrom(url, {'#'}, 0));
  }

  /** The `#` that starts the fragment is the first `#` of the URL, and after
      cutting there no fragment is left. */
  lemma FragmentAtDefrag(url: string)
    ensures FragmentAt(url) == |Defrag(url)|
    ensures FragmentAt(Defrag(url)) == |Defrag(url)|
  {
    var k, d := FindFrom(url, {'#'}, 0), Defrag(url);
    PathEndDefrag(url);
    var q := PathEndAt(url);
    if q < |url| && url[q] == '?' {
      FindFromIs(url, {'#'}, q + 1, k);
      FindFromIs(d, {'#'}, q + 1, k);
    }
  }

  /** The fragment is the only component `urldefrag` changes: every other
      part of the URL is exactly what `urlparse` finds in the original. */
  lemma ParseDefrag(url: string)
    ensures Parse(Defrag(url)) == Parse(url).(fragment := "")
  {
    SchemeDefrag(url);
    NetlocDefrag(url);
    PathDefrag(url);
    QueryDefrag(url);
    FragmentAtDefrag(url);
  }

  lemma SchemeDefrag(url: string)
    ensures Scheme(Defrag(url)) == Scheme(url)
  {
    SchemeEndDefrag(url);
    var s := SchemeEnd(url);
    if s > 0 {
      assert Defrag(url)[..s - 1] == url[..s - 1];
    }
  }

  lemma NetlocDefrag(url: string)
    ensures Netloc(Defrag(url)) == Netloc(url)
  {
    NetlocEndDefrag(url);
    var s, n := SchemeEnd(url), NetlocEnd(url);
    if HasAuthority(url, s) {
      assert Defrag(url)[s + 2..n] == url[s + 2..n];
    }
  }

  lemma PathDefrag(url: string)
    ensures PathAndParams(Defrag(url)) == PathAndParams(url)
  {
    NetlocEndDefrag(url);
    PathEndDefrag(url);
    assert Defrag(url)[NetlocEnd(url)..PathEndAt(url)] == url[NetlocEnd(url)..PathEndAt(url)];
  }

  lemma QueryDefrag(url: string)
    ensures Query(Defrag(url)) == Query(url)
  {
    PathEndDefrag(url);
    FragmentAtDefrag(url);
    var q, f := PathEndAt(url), FragmentAt(url);
    if q < f {
      assert Defrag(url)[q + 1..f] == url[q + 1..f];
    }
  }

  /** `os.path.basename(path)`: everything after the last `/`. */
  function Basename(path: string): (r: string)
    ensures '/' !in r
    ensures EndsWith(path, r)
    ensures |r| < |path| ==> path[|path| - |r| - 1] == '/'
  {
    path[RFind(path, '/') + 1..]
  }

  /** Some character of `p[a..b]` is not a dot. */
  predicate NonDotIn(p: string, a: int, b: int) {
    exists i | 0 <= a <= i < b <= |p| :: p[i] != '.'
  }

  /** `os.path.splitext(p)` on POSIX: the extension is the text from the last
      `.` of the last path segment, provided that segment has a character
      other than `.` before it (so `.bashrc` has no extension). */
  function SplitExt(p: string): (r: (string, string))
    ensures r.0 + r.1 == p
    ensures r.1 != "" ==> r.1[0] == '.'
    ensures forall i | 1 <= i < |r.1| :: r.1[i] != '.'
    ensures forall i | 0 <= i < |r.1| :: r.1[i] != '/'
    ensures r.1 != "" ==> NonDotIn(r.0, 0, |r.0|)
    ensures p != "" ==> r.0 != ""
  {
    var sep, dot := RFind(p, '/'), RFind(p, '.');
    if dot > sep && NonDotIn(p, sep + 1, dot) then
      assert p[..dot] + p[dot..] == p;
      (p[..dot], p[dot..])
    else (p, "")
  }

  /** A name without any `.` has no extension. */
  lemma SplitExtNoDot(p: string)
    requires forall i | 0 <= i < |p| :: p[i] != '.'
    ensures SplitExt(p) == (p, "")
  {
    RFindIs(p, '.', -1);
  }

  /** A stem with a non-dot character followed by a one-dot extension splits
      back into exactly that stem and that extension. */
  lemma SplitExtAppend(stem: string, ext: string)
    requires forall i | 0 <= i < |stem| :: stem[i] != '/'
    requires NonDotIn(stem, 0, |stem|)
    requires ext != "" && ext[0] == '.'
    requires forall i | 1 <= i < |ext| :: ext[i] != '.'
    requires forall i | 0 <= i < |ext| :: ext[i] != '/'
    ensures SplitExt(stem + ext) == (stem, ext)
  {
    var p := stem + ext;
    RFindIs(p, '/', -1);
    forall i | |stem| < i < |p| ensures p[i] != '.' {
      assert p[i] == ext[i - |stem|];
    }
    RFindIs(p, '.', |stem|);
    assert p[0..|stem|] == stem;
  }
}
