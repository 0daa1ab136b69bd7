/**
 * The string and path decisions of the INMET historical-data downloader
 * (`baixar_e_extrair_arquivos` in `scripts/scraping_historico.py`): which
 * links on the listing page are archives, the bare file name of each, the
 * completion of relative links, where the archive is saved and where it is
 * extracted.
 *
 * The page arrives already parsed, as articles with their anchors; the
 * archive's member names arrive as a list.
 */
module Historico {
  import opened Wrappers
  import opened Text

  /** The listing page, `https://portal.inmet.gov.br/dadoshistoricos`; relative links are completed against it. */
  const BaseUrl := Https + "://portal.inmet.gov.br/dadoshistoricos"

  const Https := "https"

  const ZipSuffix := ".zip"

  /** An `<a>` element: its `href` attribute when present, and its text. */
  datatype Anchor = Anchor(href: Option<string>, text: string)

  /** An `<article>` element: its classes and the anchors inside it, in document order. */
  datatype Article = Article(classes: seq<string>, anchors: seq<Anchor>)

  /** One entry of `links_zip`: display name, download address and file name without `.zip`. */
  datatype Link = Link(name: string, url: string, stem: string)

  /** `find_all("article", class_="post-preview")` keeps articles carrying that class. */
  predicate IsPostPreview(a: Article) {
    "post-preview" in a.classes
  }

  // ----- choosing the link -----

  /** Anchor `i` is the first anchor that has an `href`. */
  predicate IsFirstHref(anchors: seq<Anchor>, i: int) {
    && 0 <= i < |anchors|
    && anchors[i].href.Some?
    && forall j :: 0 <= j < i ==> anchors[j].href.None?
  }

  /** `artigo.find("a", href=True)`: the position of the first anchor with an `href`. */
  function FirstHref(anchors: seq<Anchor>): (r: Option<nat>)
    ensures r.Some? ==> IsFirstHref(anchors, r.value)
    ensures r.None? <==> forall j :: 0 <= j < |anchors| ==> anchors[j].href.None?
    decreases |anchors|
  {
    if anchors == [] then None
    else if anchors[0].href.Some? then Some(0)
    else
      match FirstHref(anchors[1..])
      case None => None
      case Some(k) =>
        assert forall j :: 1 <= j <= k ==> anchors[j] == anchors[1..][j - 1];
        Some(k + 1)
  }

  lemma FirstHrefUnique(anchors: seq<Anchor>, i: int, k: int)
    requires IsFirstHref(anchors, i) && IsFirstHref(anchors, k)
    ensures i == k
  {
  }

  // ----- deriving the pieces -----

  /**
   * `href.split('/')[-1].split('.zip')[0]`: the last path segment, cut before
   * its first `.zip`.
   */
  function Stem(href: string): (r: string)
    ensures '/' !in r
    ensures !Contains(r, ZipSuffix)
  {
    SplitFirst(SplitLast(href, '/'), ZipSuffix)
  }

  /** `.zip` cannot start inside `u` and run into an appended `.zip`: it has no `.` after its first character. */
  lemma NoZipStraddle(u: string, p: int)
    requires 0 <= p < |u| < p + 4
    ensures (u + ZipSuffix)[p..p + 4] != ZipSuffix
  {
    var s := u + ZipSuffix;
    assert s[|u|] == '.';
    assert s[p..p + 4][|u| - p] == s[|u|];
  }

  /** Cutting `u + ".zip"` before its first `.zip` gives `u` back when `u` has none. */
  lemma CutBeforeZip(u: string)
    requires !Contains(u, ZipSuffix)
    ensures SplitFirst(u + ZipSuffix, ZipSuffix) == u
  {
    var s := u + ZipSuffix;
    NoZipBefore(u);
    ZipAtEnd(u);
    SplitFirstAt(s, ZipSuffix, |u|);
    assert s[..|u|] == u;
  }

  /** Appending `.zip` to `u` puts one at position `|u|`. */
  lemma ZipAtEnd(u: string)
    ensures OccursAt(u + ZipSuffix, ZipSuffix, |u|)
  {
    assert (u + ZipSuffix)[|u|..|u| + 4] == ZipSuffix;
  }

  /** When `u` holds no `.zip`, none starts inside `u` in `u + ".zip"`. */
  lemma NoZipBefore(u: string)
    requires !Contains(u, ZipSuffix)
    ensures forall j :: 0 <= j < |u| ==> !OccursAt(u + ZipSuffix, ZipSuffix, j)
  {
    var s := u + ZipSuffix;
    forall j | 0 <= j < |u|
      ensures !OccursAt(s, ZipSuffix, j)
    {
      if j + 4 <= |u| {
        assert s[j..j + 4] == u[j..j + 4];
        if u[j..j + 4] == ZipSuffix {
          ContainsAt(u, ZipSuffix, j);
        }
      } else {
        NoZipStraddle(u, j);
      }
    }
  }

  /**
   * Round trip: an archive link `prefix/stem.zip` whose stem has no `/` and no
   * `.zip` yields that stem.
   */
  lemma StemOfArchiveLink(prefix: string, stem: string)
    requires '/' !in stem && !Contains(stem, ZipSuffix)
    ensures Stem(prefix + "/" + stem + ZipSuffix) == stem
  {
    assert prefix + "/" + stem + ZipSuffix == prefix + ['/'] + (stem + ZipSuffix);
    SplitLastAfter(prefix, '/', stem + ZipSuffix);
    CutBeforeZip(stem);
  }

  lemma BaseUrlIsHttp()
    ensures StartsWith(BaseUrl, "http")
  {
    assert Https[..4] == "http";
    PrefixStartsWith(Https, "://portal.inmet.gov.br/dadoshistoricos", "http");
  }

  /** Relative links get the page address prepended; links starting with `http` are kept. */
  function CompleteUrl(href: string): (r: string)
    ensures StartsWith(r, "http")
    ensures EndsWith(r, href)
    ensures |r| == |href| || |r| == |BaseUrl| + |href|
    ensures StartsWith(href, "http") ==> r == href
    ensures !StartsWith(href, "http") ==> r == BaseUrl + href
  {
    if StartsWith(href, "http") then href
    else
      BaseUrlIsHttp();
      PrefixStartsWith(BaseUrl, href, "http");
      BaseUrl + href
  }

  /** Completing a completed address changes nothing. */
  lemma CompleteUrlIdempotent(href: string)
    ensures CompleteUrl(CompleteUrl(href)) == CompleteUrl(href)
  {
  }

  /** A site-relative link is completed by plain concatenation, with no separator added. */
  lemma CompleteRelative()
    ensures CompleteUrl("/a.zip") == BaseUrl + "/a.zip"
  {
    assert "/a.zip"[..4] == "/a.z";
  }

  /** What every collected entry satisfies. */
  predicate WellFormed(l: Link) {
    StartsWith(l.url, "http") && '/' !in l.stem && !Contains(l.stem, ZipSuffix)
  }

  /** The entry built from an archive anchor. */
  function LinkOf(href: string, text: string): (r: Link)
    ensures r.name == Strip(text)
    ensures EndsWith(r.url, href)
    ensures r.url == CompleteUrl(href)
    ensures r.stem == Stem(href)
    ensures WellFormed(r)
  {
    Link(Strip(text), CompleteUrl(href), Stem(href))
  }

  /** Anchor `i` is the first with an `href`, and that `href` ends with `.zip`. */
  predicate IsArchiveAnchor(anchors: seq<Anchor>, i: int) {
    IsFirstHref(anchors, i) && EndsWith(anchors[i].href.value, ZipSuffix)
  }

  /** The first anchor with an `href` points at an archive. */
  ghost predicate FirstHrefIsArchive(anchors: seq<Anchor>) {
    exists i :: IsArchiveAnchor(anchors, i)
  }

  /**
   * One article's contribution: the first anchor with an `href` decides, and
   * the article yields an entry only when that `href` ends with `.zip`.
   */
  function ArticleLink(a: Article): (r: Option<Link>)
    ensures r.Some? ==> WellFormed(r.value)
    ensures r.Some? <==> FirstHrefIsArchive(a.anchors)
    ensures forall i :: IsArchiveAnchor(a.anchors, i) ==>
      r == Some(LinkOf(a.anchors[i].href.value, a.anchors[i].text))
  {
    match FirstHref(a.anchors)
    case None => None
    case Some(i) =>
      var link := a.anchors[i];
      assert forall k :: IsFirstHref(a.anchors, k) ==> k == i;
      assert EndsWith(link.href.value, ZipSuffix) ==> IsArchiveAnchor(a.anchors, i);
      if EndsWith(link.href.value, ZipSuffix) then Some(LinkOf(link.href.value, link.text)) else None
  }

  /** A later archive anchor does not help when an earlier anchor with an `href` is no archive. */
  lemma FirstHrefDecides()
    ensures ArticleLink(Article(["post-preview"],
      [Anchor(None, "topo"), Anchor(Some("/manual.pdf"), "Manual"), Anchor(Some("/2020.zip"), "2020")])) == None
  {
    var anchors := [Anchor(None, "topo"), Anchor(Some("/manual.pdf"), "Manual"), Anchor(Some("/2020.zip"), "2020")];
    assert IsFirstHref(anchors, 1);
    assert "/manual.pdf"[|"/manual.pdf"| - 4..] == ".pdf";
  }

  /** The part of `links_zip` coming from one article. */
  function Contribution(a: Article): (r: seq<Link>)
    ensures |r| <= 1
    ensures r != [] <==> IsPostPreview(a) && FirstHrefIsArchive(a.anchors)
    ensures forall k :: 0 <= k < |r| ==> WellFormed(r[k])
  {
    var link := ArticleLink(a);
    assert link.Some? <==> FirstHrefIsArchive(a.anchors);
    if IsPostPreview(a) && link.Some? then
      SingleWellFormed(link.value);
      [link.value]
    else []
  }

  lemma SingleWellFormed(l: Link)
    requires WellFormed(l)
    ensures forall k :: 0 <= k < |[l]| ==> WellFormed([l][k])
  {
  }

  /** `links_zip`: the entries of the selected articles, in page order, at most one each. */
  function CollectLinks(articles: seq<Article>): (r: seq<Link>)
    ensures |r| <= |articles|
    ensures forall k :: 0 <= k < |r| ==> WellFormed(r[k])
  {
    if articles == [] then [] else Contribution(articles[0]) + CollectLinks(articles[1..])
  }

  /** Collection works article by article: it distributes over concatenation. */
  lemma {:induction false} CollectAppend(a: seq<Article>, b: seq<Article>)
    ensures CollectLinks(a + b) == CollectLinks(a) + CollectLinks(b)
    decreases |a|
  {
    if a == [] {
      assert a + b == b;
    } else {
      assert (a + b)[0] == a[0];
      assert (a + b)[1..] == a[1..] + b;
      CollectAppend(a[1..], b);
    }
  }

  /** A single article yields its entry exactly when it is selected and its first link is an archive. */
  lemma CollectSingle(a: Article)
    ensures CollectLinks([a]) == Contribution(a)
  {
    assert [a][1..] == [];
  }

  // ----- paths -----

  /** `os.path.join(a, b)` on POSIX: an absolute `b` wins, otherwise `/` is inserted when needed. */
  function PosixJoin(a: string, b: string): (r: string)
    ensures EndsWith(r, b)
    ensures StartsWith(b, "/") ==> r == b
    ensures !StartsWith(b, "/") ==> StartsWith(r, a) && |r| <= |a| + 1 + |b|
    ensures !StartsWith(b, "/") && a != [] && a[|a| - 1] != '/' ==> r == a + "/" + b
    ensures !StartsWith(b, "/") && (a == [] || a[|a| - 1] == '/') ==> r == a + b
  {
    if StartsWith(b, "/") then b
    else if a == [] || a[|a| - 1] == '/' then a + b
    else a + "/" + b
  }

  /**
   * `caminho_zip`: where an archive is saved. The file `stem.zip` is the last
   * segment of the path, right after the destination and one `/` (none when
   * the destination is empty or already ends in `/`).
   */
  function ZipPath(dest: string, stem: string): (r: string)
    requires '/' !in stem
    ensures EndsWith(r, stem + ZipSuffix) && StartsWith(r, dest)
    ensures dest != [] && dest[|dest| - 1] != '/' ==> r == dest + "/" + (stem + ZipSuffix)
    ensures dest == [] || dest[|dest| - 1] == '/' ==> r == dest + (stem + ZipSuffix)
    ensures SplitLast(r, '/') == stem + ZipSuffix
  {
    ArchiveNameHasNoSlash(stem);
    NoSlashStart(stem + ZipSuffix);
    LastSegmentOfJoin(dest, stem + ZipSuffix);
    PosixJoin(dest, stem + ZipSuffix)
  }

  /** A name without `/` is not absolute. */
  lemma NoSlashStart(x: string)
    requires '/' !in x
    ensures !StartsWith(x, "/")
  {
    if |x| >= 1 {
      assert x[..1][0] == x[0];
    }
  }

  /** Joining a name without `/` onto a directory makes that name the last segment. */
  lemma LastSegmentOfJoin(dest: string, name: string)
    requires '/' !in name
    ensures SplitLast(PosixJoin(dest, name), '/') == name
  {
    NoSlashStart(name);
    if dest == [] {
      SplitLastNone(name, '/');
    } else if dest[|dest| - 1] == '/' {
      var init := dest[..|dest| - 1];
      assert dest == init + ['/'];
      assert PosixJoin(dest, name) == init + ['/'] + name;
      SplitLastAfter(init, '/', name);
    } else {
      assert PosixJoin(dest, name) == dest + ['/'] + name;
      SplitLastAfter(dest, '/', name);
    }
  }

  /** Round trip: the saved archive's own path yields the same stem as the link it came from. */
  lemma StemOfZipPath(dest: string, href: string)
    ensures Stem(ZipPath(dest, Stem(href))) == Stem(href)
  {
    StemOfSavedArchive(dest, Stem(href));
  }

  /** A stem without `/` or `.zip`, saved as `stem.zip` under any directory, is read back from the path. */
  lemma StemOfSavedArchive(dest: string, stem: string)
    requires '/' !in stem && !Contains(stem, ZipSuffix)
    ensures Stem(ZipPath(dest, stem)) == stem
  {
    var name := stem + ZipSuffix;
    ArchiveNameHasNoSlash(stem);
    LastSegmentOfJoin(dest, name);
    CutBeforeZip(stem);
  }

  lemma ArchiveNameHasNoSlash(stem: string)
    requires '/' !in stem
    ensures '/' !in stem + ZipSuffix
  {
  }

  /** Some member name ends with `/`: the archive carries its own folder. */
  predicate HasFolder(members: seq<string>) {
    exists k :: 0 <= k < |members| && EndsWith(members[k], "/")
  }

  /**
   * Where the archive is extracted: the destination itself when the archive
   * carries a folder, otherwise a subfolder named after the stem.
   */
  function ExtractTarget(dest: string, stem: string, members: seq<string>): (r: string)
    requires '/' !in stem
    ensures HasFolder(members) ==> r == dest
    ensures !HasFolder(members) ==> StartsWith(r, dest) && EndsWith(r, stem)
    ensures !HasFolder(members) && dest != [] && dest[|dest| - 1] != '/' ==> r == dest + "/" + stem
    ensures !HasFolder(members) && (dest == [] || dest[|dest| - 1] == '/') ==> r == dest + stem
    ensures !HasFolder(members) ==> SplitLast(r, '/') == stem
  {
    if HasFolder(members) then dest
    else
      NoSlashStart(stem);
      LastSegmentOfJoin(dest, stem);
      PosixJoin(dest, stem)
  }

  /** Without a folder inside, the archive is unpacked beside itself: its path minus `.zip`. */
  lemma ZipBesideTarget(dest: string, stem: string, members: seq<string>)
    requires '/' !in stem && !HasFolder(members)
    ensures ZipPath(dest, stem) == ExtractTarget(dest, stem, members) + ZipSuffix
  {
    NoSlashStart(stem);
    NoSlashStart(stem + ZipSuffix);
    if dest == [] || dest[|dest| - 1] == '/' {
      assert dest + (stem + ZipSuffix) == (dest + stem) + ZipSuffix;
    } else {
      assert dest + "/" + (stem + ZipSuffix) == (dest + "/" + stem) + ZipSuffix;
    }
  }
}
