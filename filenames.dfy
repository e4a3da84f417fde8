/** The names under which the crawler saves pages and images:
    `html_filename_for_url`, `image_filename_for_url`, and the rule in
    `download_image` that swaps a `.bin` extension for the image subtype
    named by the `Content-Type` header. */
module Filenames {
  import opened Text
  import opened UrlParse

  /** `hashlib.sha1(...).hexdigest()[:8]`: eight lower-case hex digits. */
  type Hex8 = s: string | |s| == 8 && forall i | 0 <= i < |s| :: IsLowerHex(s[i]) witness "00000000"

  /** SHA-1 is not modelled; only the shape of its truncated digest is. */
  type Digest = string -> Hex8

  /** The longest base kept as is, and the prefix kept of a longer one. */
  const MaxBase := 160
  const KeptPrefix := 120

  lemma HexSafe(h: Hex8)
    ensures AllSafe(h) && AllSafe("-" + h)
  {
    assert forall i | 0 <= i < |"-" + h| :: ("-" + h)[i] == if i == 0 then '-' else h[i - 1];
  }

  lemma AppendSafe(a: string, b: string)
    requires AllSafe(a) && AllSafe(b)
    ensures AllSafe(a + b)
  {
    assert forall i | 0 <= i < |a + b| :: (a + b)[i] == if i < |a| then a[i] else b[i - |a|];
  }

  /** `s.endswith("/")`. */
  predicate EndsWithSlash(s: string) {
    s != "" && s[|s| - 1] == '/'
  }

  /** The unsanitised base: netloc and path (`/` when empty), with `index`
      appended when it ends in `/`; so it never ends in `/`. */
  function RawBase(url: string): (b: string)
    ensures StartsWith(b, Parse(url).netloc)
    ensures StartsWith(b, Parse(url).netloc + (if Parse(url).path == "" then "/" else Parse(url).path))
    ensures !EndsWithSlash(b)
    ensures Parse(url).path == "" || EndsWithSlash(Parse(url).path) ==> EndsWith(b, "index")
    ensures !(Parse(url).path == "" || EndsWithSlash(Parse(url).path)) ==> b == Parse(url).netloc + Parse(url).path
  {
    var p := Parse(url);
    var base := p.netloc + (if p.path == "" then "/" else p.path);
    assert base[..|p.netloc|] == p.netloc;
    if EndsWithSlash(base) then
      var b := base + "index";
      assert b[..|p.netloc|] == p.netloc;
      assert b[|base|..] == "index";
      b
    else base
  }

  /** The length cap: a base longer than 160 characters keeps its first 120,
      followed by `-` and a hash of the whole base. */
  function CapBase(base: string, sha: Digest): (b: string)
    requires AllSafe(base)
    ensures AllSafe(b) && |b| <= MaxBase
    ensures |base| <= MaxBase ==> b == base
    ensures |base| > MaxBase ==>
      |b| == KeptPrefix + 9 && b[..KeptPrefix] == base[..KeptPrefix] && b[KeptPrefix] == '-'
      && b[KeptPrefix + 1..] == sha(base)
  {
    if |base| > MaxBase then
      var h := sha(base);
      HexSafe(h);
      AppendSafe(base[..KeptPrefix], "-" + h);
      base[..KeptPrefix] + "-" + h
    else base
  }

  /** The base of a page's file name: sanitised, then capped. */
  function HtmlBase(url: string, sha: Digest): (b: string)
    ensures AllSafe(b) && |b| <= MaxBase
  {
    CapBase(Sanitize(RawBase(url)), sha)
  }

  /** The name of a page from its base and query: `-<hash of the query>`
      follows the base exactly when the query is non-empty, then `.html`. */
  function PageName(base: string, query: string, sha: Digest): (r: string)
    requires AllSafe(base)
    ensures AllSafe(r) && EndsWith(r, ".html") && StartsWith(r, base)
    ensures query == "" <==> |r| == |base| + 5
    ensures query != "" ==> r[|base|..] == "-" + sha(query) + ".html"
  {
    var qhash := if query != "" then "-" + sha(query) else "";
    HexSafe(sha(query));
    AppendSafe(qhash, ".html");
    AppendSafe(base, qhash + ".html");
    assert base + qhash + ".html" == base + (qhash + ".html");
    base + qhash + ".html"
  }

  /** `html_filename_for_url(url)`. */
  function HtmlFilename(url: string, sha: Digest): (r: string)
    ensures AllSafe(r) && EndsWith(r, ".html")
    ensures StartsWith(r, HtmlBase(url, sha))
    ensures Parse(url).query == "" <==> |r| == |HtmlBase(url, sha)| + 5
    ensures Parse(url).query != "" ==> r[|HtmlBase(url, sha)|..] == "-" + sha(Parse(url).query) + ".html"
  {
    PageName(HtmlBase(url, sha), Parse(url).query, sha)
  }

  /** Sanitising keeps an `index` ending. */
  lemma {:induction false} SanitizeIndex(raw: string)
    requires EndsWith(raw, "index")
    ensures EndsWith(Sanitize(raw), "index")
  {
    var n := |raw| - 5;
    var r := Sanitize(raw);
    assert forall i | n <= i < |raw| :: IsSafeChar(raw[i]) by {
      forall i | n <= i < |raw| ensures IsSafeChar(raw[i]) {
        assert raw[i] == "index"[i - n];
      }
    }
    assert r[n..] == raw[n..];
  }

  /** A page whose path is empty or ends in `/` is saved as `...index.html`
      (unless the base was cut for length). */
  lemma HtmlIndex(url: string, sha: Digest)
    requires Parse(url).path == "" || EndsWith(Parse(url).path, "/")
    requires |RawBase(url)| <= MaxBase
    ensures EndsWith(HtmlBase(url, sha), "index")
  {
    SanitizeIndex(RawBase(url));
  }

  /** The fragment plays no part in a page's file name. */
  lemma HtmlIgnoresFragment(url: string, sha: Digest)
    ensures HtmlFilename(Defrag(url), sha) == HtmlFilename(url, sha)
  {
    ParseDefrag(url);
  }

  /** The name used when the URL's path names no file. */
  const DefaultImageName := "image"

  lemma DefaultImageNameSafe()
    ensures AllSafe(DefaultImageName) && Sanitize(DefaultImageName) == DefaultImageName
    ensures SplitExt(DefaultImageName) == (DefaultImageName, "")
  {
    var d := DefaultImageName;
    assert d[0] == 'i' && d[1] == 'm' && d[2] == 'a' && d[3] == 'g' && d[4] == 'e';
    SanitizeSafe(d);
    SplitExtNoDot(d);
  }

  /** The name part of an image file: the sanitised basename of the path,
      `image` when the path ends in `/` or is empty. */
  function ImageName(url: string): (n: string)
    ensures n != "" && AllSafe(n)
    ensures Basename(Parse(url).path) == "" ==> n == DefaultImageName
    ensures Basename(Parse(url).path) != "" ==> n == Sanitize(Basename(Parse(url).path))
  {
    var name := Basename(Parse(url).path);
    DefaultImageNameSafe();
    Sanitize(if name == "" then DefaultImageName else name)
  }

  /** The extension an image file gets: its own, or `.bin` when it has none. */
  function OrBin(ext: string): string {
    if ext == "" then ".bin" else ext
  }

  /** `root-<hash>ext` for `root, ext = splitext(name)`, where a missing
      extension becomes `.bin`. Splitting the result again gives back
      `root-<hash>` and that extension. */
  function HashedName(name: string, h: Hex8): (r: string)
    requires AllSafe(name)
    ensures AllSafe(r)
    ensures SplitExt(r) == (SplitExt(name).0 + "-" + h, OrBin(SplitExt(name).1))
  {
    var (root, ext) := SplitExt(name);
    HashedNameSplits(name, root, ext, h);
    root + "-" + h + OrBin(ext)
  }

  lemma HashedNameSplits(name: string, root: string, ext: string, h: Hex8)
    requires AllSafe(name) && (root, ext) == SplitExt(name)
    ensures AllSafe(root + "-" + h + OrBin(ext))
    ensures SplitExt(root + "-" + h + OrBin(ext)) == (root + "-" + h, OrBin(ext))
  {
    var stem, ext' := root + "-" + h, OrBin(ext);
    assert AllSafe(root) && AllSafe(ext) by {
      assert forall i | 0 <= i < |root| :: root[i] == name[i];
      assert forall i | 0 <= i < |ext| :: ext[i] == name[|root| + i];
    }
    assert AllSafe(".bin") by {
      assert ".bin"[0] == '.' && ".bin"[1] == 'b' && ".bin"[2] == 'i' && ".bin"[3] == 'n';
    }
    HexSafe(h);
    AppendSafe(root, "-" + h);
    assert stem == root + ("-" + h);
    AppendSafe(stem, ext');
    assert stem[|root|] == '-';
    SplitExtAppend(stem, ext');
  }

  /** `image_filename_for_url(url)`. */
  function ImageFilename(url: string, sha: Digest): (r: string)
    ensures AllSafe(r)
    ensures SplitExt(r) == (SplitExt(ImageName(url)).0 + "-" + sha(url), OrBin(SplitExt(ImageName(url)).1))
  {
    HashedName(ImageName(url), sha(url))
  }

  /** An image URL whose path names no file is saved as `image-<hash>.bin`. */
  lemma ImageDefault(url: string, sha: Digest)
    requires Basename(Parse(url).path) == ""
    ensures ImageFilename(url, sha) == DefaultImageName + "-" + sha(url) + ".bin"
  {
    var r := ImageFilename(url, sha);
    DefaultImageNameSafe();
    assert SplitExt(r) == (DefaultImageName + "-" + sha(url), ".bin");
    assert r == SplitExt(r).0 + SplitExt(r).1;
  }

  /** The characters `^[A-Za-z0-9.+-]+$` accepts. */
  predicate IsSubtypeChar(c: char) {
    IsAsciiLetter(c) || '0' <= c <= '9' || c == '.' || c == '+' || c == '-'
  }

  /** `re.match(r"^[A-Za-z0-9.+-]+$", s)`: one or more accepted characters,
      where `$` also matches just before a final newline. */
  predicate SubtypeMatches(s: string) {
    (|s| >= 1 && forall i | 0 <= i < |s| :: IsSubtypeChar(s[i]))
    || (|s| >= 2 && s[|s| - 1] == '\n' && forall i | 0 <= i < |s| - 1 :: IsSubtypeChar(s[i]))
  }

  /** Where `ctype.split("/", 1)[-1]` starts: just after the first `/`, or
      at 0 when there is none. */
  function SubtypeStart(ctype: string): (n: nat)
    ensures n <= |ctype|
    ensures n > 0 ==> ctype[n - 1] == '/'
    ensures forall i | 0 <= i < n - 1 :: ctype[i] != '/'
    ensures n == 0 ==> forall i | 0 <= i < |ctype| :: ctype[i] != '/'
  {
    var slash := FindFrom(ctype, {'/'}, 0);
    if slash < |ctype| then slash + 1 else 0
  }

  /** `ctype.split("/", 1)[-1].split(";")[0]`: the text after the first `/`,
      up to the first `;` or the end. */
  function Subtype(ctype: string): (r: string)
    ensures SubtypeStart(ctype) + |r| <= |ctype|
    ensures r == ctype[SubtypeStart(ctype)..SubtypeStart(ctype) + |r|]
    ensures ';' !in r
    ensures SubtypeStart(ctype) + |r| < |ctype| ==> ctype[SubtypeStart(ctype) + |r|] == ';'
  {
    var start := SubtypeStart(ctype);
    ctype[start..FindFrom(ctype, {';'}, start)]
  }

  /** For an `image/...` type the subtype is what follows `image/`. */
  lemma ImageSubtypeStart(ctype: string)
    requires StartsWith(ctype, "image/")
    ensures SubtypeStart(ctype) == 6
  {
    assert ctype[5] == '/';
    assert forall i | 0 <= i < 5 :: ctype[i] == "image/"[i];
    FindFromIs(ctype, {'/'}, 0, 5);
  }

  /** `download_image` after a successful response: `None` when the
      lower-cased `Content-Type` is not `image/...`; otherwise the name the
      image is saved under, where a `.bin` extension is replaced by
      `.<subtype>` when the subtype passes the sanity pattern. */
  function SavedImageName(filename: string, contentType: string): (r: Option<string>)
    ensures r.None? <==> !StartsWith(Lower(contentType), "image/")
    ensures r.Some? && SplitExt(filename).1 != ".bin" ==> r.value == filename
    ensures r.Some? && !SubtypeMatches(Subtype(Lower(contentType))) ==> r.value == filename
    ensures r.Some? && SplitExt(filename).1 == ".bin" && SubtypeMatches(Subtype(Lower(contentType))) ==>
      r.value == SplitExt(filename).0 + "." + Subtype(Lower(contentType))
  {
    var ctype := Lower(contentType);
    if !StartsWith(ctype, "image/") then None
    else
      var (root, ext) := SplitExt(filename);
      var subtype := Subtype(ctype);
      if ext == ".bin" && SubtypeMatches(subtype) then Some(root + "." + subtype)
      else Some(filename)
  }

  /** The replacement extension is the subtype: splitting the new name gives
      the old root and `.<subtype>`, for a subtype without dots or a trailing
      newline (`png`, `svg+xml`). */
  lemma SavedExtensionIsSubtype(filename: string, contentType: string)
    requires SavedImageName(filename, contentType).Some?
    requires SplitExt(filename).1 == ".bin"
    requires var st := Subtype(Lower(contentType));
      st != "" && forall i | 0 <= i < |st| :: IsSubtypeChar(st[i]) && st[i] != '.'
    requires forall i | 0 <= i < |filename| :: filename[i] != '/'
    ensures SplitExt(SavedImageName(filename, contentType).value)
      == (SplitExt(filename).0, "." + Subtype(Lower(contentType)))
  {
    var st := Subtype(Lower(contentType));
    assert SubtypeMatches(st);
    var root := SplitExt(filename).0;
    assert forall i | 0 <= i < |root| :: root[i] == filename[i];
    AppendExtension(root, st);
  }

  lemma AppendExtension(root: string, st: string)
    requires forall i | 0 <= i < |root| :: root[i] != '/'
    requires NonDotIn(root, 0, |root|)
    requires st != "" && forall i | 0 <= i < |st| :: IsSubtypeChar(st[i]) && st[i] != '.'
    ensures SplitExt(root + "." + st) == (root, "." + st)
  {
    var ext := "." + st;
    assert forall i | 1 <= i < |ext| :: ext[i] == st[i - 1];
    assert root + "." + st == root + ext;
    SplitExtAppend(root, ext);
  }

  /** An image whose URL names no extension is saved under its subtype:
      `photo` served as `image/png` becomes `photo-<hash>.png`. */
  lemma ImageFromContentType(url: string, sha: Digest, contentType: string)
    requires SplitExt(ImageName(url)).1 == ""
    requires StartsWith(Lower(contentType), "image/")
    requires SubtypeMatches(Subtype(Lower(contentType)))
    ensures SavedImageName(ImageFilename(url, sha), contentType)
      == Some(ImageName(url) + "-" + sha(url) + "." + Subtype(Lower(contentType)))
  {
    var name := ImageName(url);
    var f := ImageFilename(url, sha);
    assert SplitExt(name).0 == name;
    assert SplitExt(f) == (name + "-" + sha(url), ".bin");
  }

  /** An image whose URL names an extension other than `.bin` keeps its
      name whatever the content type says. */
  lemma ImageKeepsExtension(url: string, sha: Digest, contentType: string)
    requires SplitExt(ImageName(url)).1 !in {"", ".bin"}
    requires StartsWith(Lower(contentType), "image/")
    ensures SavedImageName(ImageFilename(url, sha), contentType) == Some(ImageFilename(url, sha))
  {
    var ext := SplitExt(ImageName(url)).1;
    assert SplitExt(ImageFilename(url, sha)).1 == ext;
  }
}
