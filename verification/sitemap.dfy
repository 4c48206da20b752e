/** The sitemap of app/sitemap.ts: eight static pages, then one entry per
    chapter, figure and author, in table order. */
module Sitemap {
  import Order
  import Chapters
  import Figures
  import Authors

  datatype Frequency = Weekly | Monthly | Yearly

  /** One sitemap entry; `lastModified` (the clock at build time) is not modelled. */
  datatype Entry = Entry(url: string, changeFrequency: Frequency, priority: real)

  const BaseUrl: string := "https://designedtofail.com"

  /** The static pages: path, change frequency and priority. */
  const StaticPaths: seq<string> := ["", "/book", "/chapters", "/figures", "/authors", "/media", "/events", "/contact"]

  function StaticPages(base: string): (r: seq<Entry>)
    ensures |r| == |StaticPaths|
    ensures forall i :: 0 <= i < |r| ==> r[i].url == base + StaticPaths[i]
  {
    [
      Entry(base + "", Weekly, 1.0),
      Entry(base + "/book", Monthly, 0.9),
      Entry(base + "/chapters", Monthly, 0.8),
      Entry(base + "/figures", Monthly, 0.8),
      Entry(base + "/authors", Monthly, 0.8),
      Entry(base + "/media", Monthly, 0.6),
      Entry(base + "/events", Weekly, 0.7),
      Entry(base + "/contact", Yearly, 0.5)
    ]
  }

  /** One entry per slug under `base + dir`, all with the same frequency and priority. */
  function Section(base: string, dir: string, slugs: seq<string>, priority: real): (r: seq<Entry>)
    ensures |r| == |slugs|
    ensures forall i :: 0 <= i < |r| ==> r[i] == Entry(base + (dir + slugs[i]), Monthly, priority)
  {
    seq(|slugs|, i requires 0 <= i < |slugs| => Entry(base + (dir + slugs[i]), Monthly, priority))
  }

  /** `sitemap()` over the slugs of the three tables. */
  function Build(base: string, chapters: seq<string>, figures: seq<string>, authors: seq<string>): (r: seq<Entry>)
    ensures |r| == 8 + |chapters| + |figures| + |authors|
    ensures r[..8] == StaticPages(base)
    ensures forall i :: 0 <= i < |chapters| ==> r[8 + i] == Entry(base + ("/chapters/" + chapters[i]), Monthly, 0.7)
    ensures forall i :: 0 <= i < |figures| ==>
              r[8 + |chapters| + i] == Entry(base + ("/figures/" + figures[i]), Monthly, 0.6)
    ensures forall i :: 0 <= i < |authors| ==>
              r[8 + |chapters| + |figures| + i] == Entry(base + ("/authors/" + authors[i]), Monthly, 0.7)
  {
    StaticPages(base) + Section(base, "/chapters/", chapters, 0.7)
    + Section(base, "/figures/", figures, 0.6) + Section(base, "/authors/", authors, 0.7)
  }

  /** Every priority lies in [0, 1], and only the home page has priority 1. */
  lemma PrioritiesBounded(base: string, chapters: seq<string>, figures: seq<string>, authors: seq<string>)
    ensures var r := Build(base, chapters, figures, authors);
            forall i :: 0 <= i < |r| ==> 0.0 <= r[i].priority <= 1.0 && (r[i].priority == 1.0 <==> i == 0)
  {
    var r := Build(base, chapters, figures, authors);
    forall i | 0 <= i < |r| ensures 0.0 <= r[i].priority <= 1.0 && (r[i].priority == 1.0 <==> i == 0) {
      if i < 8 {
        assert r[i] == r[..8][i];
      } else if i < 8 + |chapters| {
        assert r[8 + (i - 8)].priority == 0.7;
      } else if i < 8 + |chapters| + |figures| {
        assert r[8 + |chapters| + (i - 8 - |chapters|)].priority == 0.6;
      } else {
        assert r[8 + |chapters| + |figures| + (i - 8 - |chapters| - |figures|)].priority == 0.7;
      }
    }
  }

  /** The part of entry `i`'s URL after the base. */
  function PathOf(chapters: seq<string>, figures: seq<string>, authors: seq<string>, i: nat): string
    requires i < 8 + |chapters| + |figures| + |authors|
  {
    if i < 8 then StaticPaths[i]
    else if i < 8 + |chapters| then "/chapters/" + chapters[i - 8]
    else if i < 8 + |chapters| + |figures| then "/figures/" + figures[i - 8 - |chapters|]
    else "/authors/" + authors[i - 8 - |chapters| - |figures|]
  }

  lemma UrlIsBasePlusPath(base: string, chapters: seq<string>, figures: seq<string>, authors: seq<string>, i: nat)
    requires i < 8 + |chapters| + |figures| + |authors|
    ensures Build(base, chapters, figures, authors)[i].url == base + PathOf(chapters, figures, authors, i)
  {
    var r := Build(base, chapters, figures, authors);
    if i < 8 {
      assert r[i] == r[..8][i] == StaticPages(base)[i];
    } else if i < 8 + |chapters| {
      assert r[8 + (i - 8)].url == base + ("/chapters/" + chapters[i - 8]);
    } else if i < 8 + |chapters| + |figures| {
      var k := i - 8 - |chapters|;
      assert r[8 + |chapters| + k].url == base + ("/figures/" + figures[k]);
    } else {
      var k := i - 8 - |chapters| - |figures|;
      assert r[8 + |chapters| + |figures| + k].url == base + ("/authors/" + authors[k]);
    }
  }

  /** Which part of the sitemap entry `i` is in: 0 static, 1 chapters,
      2 figures, 3 authors. */
  function Part(chapters: seq<string>, figures: seq<string>, i: nat): nat
  {
    if i < 8 then 0 else if i < 8 + |chapters| then 1 else if i < 8 + |chapters| + |figures| then 2 else 3
  }

  /** The directory prefixes of the three sections differ in their second character. */
  lemma SectionPrefixesDiffer(x: string, y: string)
    ensures "/chapters/" + x != "/figures/" + y
    ensures "/chapters/" + x != "/authors/" + y
    ensures "/figures/" + x != "/authors/" + y
  {
    assert ("/chapters/" + x)[1] == 'c' && ("/figures/" + y)[1] == 'f' && ("/authors/" + y)[1] == 'a';
    assert ("/figures/" + x)[1] == 'f';
  }

  /** Paths of different entries differ when the slugs of each table are distinct. */
  lemma PathsDistinct(chapters: seq<string>, figures: seq<string>, authors: seq<string>, i: nat, j: nat)
    requires Order.Distinct(chapters) && Order.Distinct(figures) && Order.Distinct(authors)
    requires i < j < 8 + |chapters| + |figures| + |authors|
    ensures PathOf(chapters, figures, authors, i) != PathOf(chapters, figures, authors, j)
  {
    var pi, pj := PathOf(chapters, figures, authors, i), PathOf(chapters, figures, authors, j);
    var si, sj := Part(chapters, figures, i), Part(chapters, figures, j);
    if si == 0 && sj == 0 {
      // Eight distinct literals.
    } else if si == 0 {
      // Static paths are at most as long as the shortest section path, and
      // the only one of that length is under another directory.
      assert pi in StaticPaths;
      assert |pj| >= 9 && (|pj| == 9 ==> pj[1] != 'c');
      if |pi| == |pj| {
        assert pi == "/chapters";
        assert pi[1] != pj[1];
      }
    } else if si == sj {
      var prefix := if si == 1 then "/chapters/" else if si == 2 then "/figures/" else "/authors/";
      var xi, xj := pi[|prefix|..], pj[|prefix|..];
      assert pi == prefix + xi && pj == prefix + xj;
      assert xi != xj;
    } else {
      var a, b := pi[if si == 1 then 10 else 9..], pj[if sj == 1 then 10 else 9..];
      SectionPrefixesDiffer(a, b);
    }
  }

  /** With the slugs of each table distinct, every URL in the sitemap is distinct. */
  lemma UrlsDistinct(base: string, chapters: seq<string>, figures: seq<string>, authors: seq<string>)
    requires Order.Distinct(chapters) && Order.Distinct(figures) && Order.Distinct(authors)
    ensures var r := Build(base, chapters, figures, authors);
            forall i, j :: 0 <= i < j < |r| ==> r[i].url != r[j].url
  {
    var r := Build(base, chapters, figures, authors);
    forall i, j | 0 <= i < j < |r| ensures r[i].url != r[j].url {
      UrlIsBasePlusPath(base, chapters, figures, authors, i);
      UrlIsBasePlusPath(base, chapters, figures, authors, j);
      PathsDistinct(chapters, figures, authors, i, j);
      var pi, pj := PathOf(chapters, figures, authors, i), PathOf(chapters, figures, authors, j);
      assert (base + pi)[|base|..] == pi && (base + pj)[|base|..] == pj;
    }
  }

  function ChapterSlugs(): seq<string>
  {
    seq(|Chapters.All|, i requires 0 <= i < |Chapters.All| => Chapters.All[i].slug)
  }

  function FigureSlugs(): seq<string>
  {
    seq(|Figures.All|, i requires 0 <= i < |Figures.All| => Figures.All[i].slug)
  }

  function AuthorSlugs(): seq<string>
  {
    seq(|Authors.All|, i requires 0 <= i < |Authors.All| => Authors.All[i].slug)
  }

  /** `sitemap()` of the site. */
  function Site(): seq<Entry>
  {
    Build(BaseUrl, ChapterSlugs(), FigureSlugs(), AuthorSlugs())
  }

  /** The site's sitemap has 37 entries, all with distinct URLs, and links
      every chapter, figure and author page. */
  lemma SiteSitemap()
    ensures |Site()| == 37
    ensures forall i, j :: 0 <= i < j < |Site()| ==> Site()[i].url != Site()[j].url
    ensures forall i :: 0 <= i < |Chapters.All| ==> Site()[8 + i].url == BaseUrl + ("/chapters/" + Chapters.All[i].slug)
  {
    Chapters.SlugsUnique();
    Chapters.TableNumbered();
    Figures.SlugsUnique();
    Figures.TableNumbered();
    UrlsDistinct(BaseUrl, ChapterSlugs(), FigureSlugs(), AuthorSlugs());
  }
}
