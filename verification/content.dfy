/** The chapter table of lib/content/chapters.ts and its two lookups. Only
    the fields the site's logic reads are carried: the number, the slug,
    the related figure ids and the word count. */
module Chapters {
  import opened Js

  datatype Chapter = Chapter(number: nat, slug: string, relatedFigures: seq<string>, wordCount: nat)

  const All: seq<Chapter> := [
    Chapter(1, "1-mistrust", [], 8500),
    Chapter(2, "2-foundations-strong-nation-weak-state", [], 9200),
    Chapter(3, "3-rich-land-idea-equality", [], 10800),
    Chapter(4, "4-break-up-reconstruction", ["tbl-slavery"], 11500),
    Chapter(5, "5-building-empire-milk-honey", ["5.1", "5.2", "5.3", "5.4", "5.5", "tbl-expansion", "tbl-budget"], 12200),
    Chapter(6, "6-populists-progressives-new-deal", [], 13500),
    Chapter(7, "7-war-against-new-deal", [], 11800),
    Chapter(8, "8-broken-hearts", ["8.1"], 10200),
    Chapter(9, "9-government-problem-not-solution", ["9.1", "9.2", "9.3"], 9800),
    Chapter(10, "10-when-harry-met-louise", ["10.1", "10.2"], 8900),
    Chapter(11, "11-america-goes-shopping", ["11.1", "11.2", "11.3", "11.4", "tbl-top-states", "tbl-inequality-comparison"], 10500),
    Chapter(12, "12-conclusion-enduring-challenge", [], 9600)
  ]

  /** A chapter's slug begins with its number and a dash. */
  predicate SlugNumbered(c: Chapter)
  {
    var p := NumberToString(c.number) + "-";
    |p| <= |c.slug| && c.slug[..|p|] == p
  }

  /** The table is in reading order, numbered from 1, and every slug starts
      with its chapter's number. */
  lemma TableNumbered()
    ensures |All| == 12
    ensures forall i :: 0 <= i < |All| ==> All[i].number == i + 1
    ensures forall i :: 0 <= i < |All| ==> SlugNumbered(All[i])
  {
    forall i | 0 <= i < |All| ensures SlugNumbered(All[i]) {
      if i < 9 {
        SingleDigitSlugNumbered(i);
      } else {
        TwoDigitSlugNumbered(i);
      }
    }
  }

  lemma SingleDigitSlugNumbered(i: nat)
    requires i < 9
    ensures SlugNumbered(All[i])
  {
    var c := All[i];
    assert NumberToString(c.number) == [DigitChar(c.number)];
    assert c.slug[0] == DigitChar(c.number) && c.slug[1] == '-';
  }

  lemma TwoDigitSlugNumbered(i: nat)
    requires 9 <= i < 12
    ensures SlugNumbered(All[i])
  {
    var c := All[i];
    assert NumberToString(c.number) == NumberToString(1) + [DigitChar(c.number - 10)];
    assert c.slug[0] == '1' && c.slug[1] == DigitChar(c.number - 10) && c.slug[2] == '-';
  }

  function IsDash(): char -> bool { (c: char) => c == '-' }

  /** In a numbered slug the first dash comes right after the number. */
  lemma FirstDashEndsNumber(c: Chapter)
    requires SlugNumbered(c)
    ensures FindIndex(c.slug, IsDash()) == |NumberToString(c.number)|
  {
    var p := NumberToString(c.number);
    var k := |p|;
    assert c.slug[k] == (p + "-")[k] == '-';
    forall j | 0 <= j < k ensures !IsDash()(c.slug[j]) {
      assert c.slug[j] == (p + "-")[j] == p[j];
    }
  }

  /** Slugs that start with their chapter's number tell chapters apart: two
      chapters with the same slug have the same number. */
  lemma NumberedSlugsDistinguish(a: Chapter, b: Chapter)
    requires SlugNumbered(a) && SlugNumbered(b) && a.slug == b.slug
    ensures a.number == b.number
  {
    var p, q := NumberToString(a.number), NumberToString(b.number);
    FirstDashEndsNumber(a);
    FirstDashEndsNumber(b);
    assert p == (p + "-")[..|p|] == a.slug[..|p|];
    assert q == (q + "-")[..|q|] == b.slug[..|q|];
    ParseNumberToString(a.number);
    ParseNumberToString(b.number);
  }

  /** No two chapters share a slug. */
  lemma SlugsUnique()
    ensures forall i, j :: 0 <= i < j < |All| ==> All[i].slug != All[j].slug
  {
    TableNumbered();
    forall i, j | 0 <= i < j < |All| ensures All[i].slug != All[j].slug {
      if All[i].slug == All[j].slug {
        NumberedSlugsDistinguish(All[i], All[j]);
      }
    }
  }

  function HasSlug(slug: string): Chapter -> bool { (c: Chapter) => c.slug == slug }

  function HasNumber(n: int): Chapter -> bool { (c: Chapter) => c.number == n }

  /** `getChapterBySlug`: the chapter with that slug, or `undefined`. */
  function GetChapterBySlug(slug: string): (r: Option<Chapter>)
    ensures r.Some? ==> r.value in All && r.value.slug == slug
    ensures r.None? <==> forall i :: 0 <= i < |All| ==> All[i].slug != slug
  {
    Find(All, HasSlug(slug))
  }

  /** `getChapterByNumber`: the chapter with that number, or `undefined`. */
  function GetChapterByNumber(n: int): (r: Option<Chapter>)
    ensures r.Some? ==> r.value in All && r.value.number == n
    ensures r.None? <==> forall i :: 0 <= i < |All| ==> All[i].number != n
  {
    Find(All, HasNumber(n))
  }

  /** Every chapter is found by its own slug, and only by it. */
  lemma SlugLookupRoundTrip(i: nat)
    requires i < |All|
    ensures GetChapterBySlug(All[i].slug) == Some(All[i])
  {
    SlugsUnique();
    FindUnique(All, HasSlug(All[i].slug), i);
  }

  /** Numbers 1 to 12 find the chapter at that position; any other number
      finds nothing. */
  lemma NumberLookup(n: int)
    ensures 1 <= n <= 12 ==> GetChapterByNumber(n) == Some(All[n - 1])
    ensures n < 1 || n > 12 ==> GetChapterByNumber(n).None?
  {
    TableNumbered();
    if 1 <= n <= 12 {
      FindUnique(All, HasNumber(n), n - 1);
    }
  }
}

/** The figure table of lib/content/figures.ts and its three lookups. */
module Figures {
  import opened Js
  import Order

  datatype Theme = Territory | Economy | Inequality | Trust

  /** The theme as the string the site compares. */
  function ThemeId(t: Theme): (id: string)
    ensures id != "all" && |id| >= 5
  {
    match t
    case Territory => "territory"
    case Economy => "economy"
    case Inequality => "inequality"
    case Trust => "trust"
  }

  /** Distinct themes have distinct ids. */
  lemma ThemeIdInjective(t: Theme, u: Theme)
    ensures ThemeId(t) == ThemeId(u) ==> t == u
  {
    if t != u {
      assert ThemeId(t)[0] != ThemeId(u)[0] || ThemeId(t)[1] != ThemeId(u)[1];
    }
  }

  datatype Figure = Figure(number: string, slug: string, chapter: nat, theme: Theme)

  const All: seq<Figure> := [
    Figure("5.1", "5-1-territories-1770", 5, Territory),
    Figure("5.2", "5-2-territories-1800", 5, Territory),
    Figure("5.3", "5-3-territories-1809", 5, Territory),
    Figure("5.4", "5-4-territories-1850", 5, Territory),
    Figure("5.5", "5-5-minerals-1913", 5, Economy),
    Figure("8.1", "8-1-trust-decline", 8, Trust),
    Figure("9.1", "9-1-mean-income", 9, Inequality),
    Figure("9.2", "9-2-share-income", 9, Inequality),
    Figure("9.3", "9-3-wealth-share", 9, Inequality),
    Figure("10.1", "10-1-wal-growth", 10, Economy),
    Figure("10.2", "10-2-wal-maps", 10, Economy),
    Figure("11.1", "11-1-national-home-prices", 11, Economy),
    Figure("11.2", "11-2-state-home-prices", 11, Economy),
    Figure("11.3", "11-3-wealth-distribution-2025", 11, Inequality),
    Figure("11.4", "11-4-income-share", 11, Inequality)
  ]

  /** A figure's number is its chapter's number, a dot, and more. */
  predicate NumberedInChapter(f: Figure)
  {
    var p := NumberToString(f.chapter) + ".";
    |p| < |f.number| && f.number[..|p|] == p
  }

  /** The table's figures are numbered within their chapters. */
  lemma TableNumbered()
    ensures |All| == 15
    ensures forall i :: 0 <= i < |All| ==> NumberedInChapter(All[i])
  {
    assert NumberToString(10) == "10" && NumberToString(11) == "11";
  }

  /** No two figures share a slug. */
  lemma SlugsUnique()
    ensures forall i, j :: 0 <= i < j < |All| ==> All[i].slug != All[j].slug
  {
  }

  function HasSlug(slug: string): Figure -> bool { (f: Figure) => f.slug == slug }

  function InChapter(n: int): Figure -> bool { (f: Figure) => f.chapter == n }

  function HasTheme(t: Theme): Figure -> bool { (f: Figure) => f.theme == t }

  /** `getFigureBySlug`. */
  function GetFigureBySlug(slug: string): (r: Option<Figure>)
    ensures r.Some? ==> r.value in All && r.value.slug == slug
    ensures r.None? <==> forall i :: 0 <= i < |All| ==> All[i].slug != slug
  {
    Find(All, HasSlug(slug))
  }

  /** `getFiguresByChapter`: the chapter's figures, in table order. */
  function GetFiguresByChapter(n: int): (r: seq<Figure>)
    ensures forall f :: f in r <==> f in All && f.chapter == n
    ensures Order.IsSubseq(r, All)
  {
    Order.FilterSubseq(All, InChapter(n));
    Filter(All, InChapter(n))
  }

  /** `getFiguresByTheme`: the figures of one theme, in table order. */
  function GetFiguresByTheme(t: Theme): (r: seq<Figure>)
    ensures forall f :: f in r <==> f in All && f.theme == t
    ensures Order.IsSubseq(r, All)
  {
    Order.FilterSubseq(All, HasTheme(t));
    Filter(All, HasTheme(t))
  }

  /** Every figure is found by its own slug. */
  lemma SlugLookupRoundTrip(i: nat)
    requires i < |All|
    ensures GetFigureBySlug(All[i].slug) == Some(All[i])
  {
    SlugsUnique();
    FindUnique(All, HasSlug(All[i].slug), i);
  }

  /** How many figures of each theme a list holds. */
  datatype ThemeCounts = ThemeCounts(territory: nat, economy: nat, inequality: nat, trust: nat)
  {
    function Of(t: Theme): nat
    {
      match t
      case Territory => territory
      case Economy => economy
      case Inequality => inequality
      case Trust => trust
    }

    function Total(): nat { territory + economy + inequality + trust }
  }

  function Tally(s: seq<Figure>): ThemeCounts
    decreases |s|
  {
    if |s| == 0 then ThemeCounts(0, 0, 0, 0)
    else
      var c := Tally(s[..|s| - 1]);
      match s[|s| - 1].theme
      case Territory => c.(territory := c.territory + 1)
      case Economy => c.(economy := c.economy + 1)
      case Inequality => c.(inequality := c.inequality + 1)
      case Trust => c.(trust := c.trust + 1)
  }

  /** Every figure has exactly one theme, so the tallies add up to the length. */
  lemma {:induction false} TallyTotal(s: seq<Figure>)
    ensures Tally(s).Total() == |s|
    decreases |s|
  {
    if |s| > 0 {
      TallyTotal(s[..|s| - 1]);
    }
  }

  /** Filtering by a theme keeps as many figures as the tally counts. */
  lemma {:induction false} FilterTally(s: seq<Figure>, t: Theme)
    ensures |Filter(s, HasTheme(t))| == Tally(s).Of(t)
    decreases |s|
  {
    if |s| > 0 {
      FilterTally(s[..|s| - 1], t);
    }
  }

  /** The four themes split any list of figures: the per-theme lists of
      `getFiguresByTheme` add up to the whole table. */
  lemma ThemesPartition()
    ensures |GetFiguresByTheme(Territory)| + |GetFiguresByTheme(Economy)|
            + |GetFiguresByTheme(Inequality)| + |GetFiguresByTheme(Trust)| == |All|
  {
    FilterTally(All, Territory);
    FilterTally(All, Economy);
    FilterTally(All, Inequality);
    FilterTally(All, Trust);
    TallyTotal(All);
  }

  /** The table holds 4 territory figures, 5 economy, 5 inequality and 1 trust. */
  lemma ThemeSizes()
    ensures |GetFiguresByTheme(Territory)| == 4 && |GetFiguresByTheme(Economy)| == 5
    ensures |GetFiguresByTheme(Inequality)| == 5 && |GetFiguresByTheme(Trust)| == 1
  {
    var s := All;
    assert s[..1][..0] == s[..0];
    assert Tally(s[..1]) == ThemeCounts(1, 0, 0, 0);
    assert s[..2][..1] == s[..1];
    assert Tally(s[..2]) == ThemeCounts(2, 0, 0, 0);
    assert s[..3][..2] == s[..2];
    assert Tally(s[..3]) == ThemeCounts(3, 0, 0, 0);
    assert s[..4][..3] == s[..3];
    assert Tally(s[..4]) == ThemeCounts(4, 0, 0, 0);
    assert s[..5][..4] == s[..4];
    assert Tally(s[..5]) == ThemeCounts(4, 1, 0, 0);
    assert s[..6][..5] == s[..5];
    assert Tally(s[..6]) == ThemeCounts(4, 1, 0, 1);
    assert s[..7][..6] == s[..6];
    assert Tally(s[..7]) == ThemeCounts(4, 1, 1, 1);
    assert s[..8][..7] == s[..7];
    assert Tally(s[..8]) == ThemeCounts(4, 1, 2, 1);
    assert s[..9][..8] == s[..8];
    assert Tally(s[..9]) == ThemeCounts(4, 1, 3, 1);
    assert s[..10][..9] == s[..9];
    assert Tally(s[..10]) == ThemeCounts(4, 2, 3, 1);
    assert s[..11][..10] == s[..10];
    assert Tally(s[..11]) == ThemeCounts(4, 3, 3, 1);
    assert s[..12][..11] == s[..11];
    assert Tally(s[..12]) == ThemeCounts(4, 4, 3, 1);
    assert s[..13][..12] == s[..12];
    assert Tally(s[..13]) == ThemeCounts(4, 5, 3, 1);
    assert s[..14][..13] == s[..13];
    assert Tally(s[..14]) == ThemeCounts(4, 5, 4, 1);
    assert s[..15][..14] == s[..14];
    assert s[..15] == s;
    assert Tally(s) == ThemeCounts(4, 5, 5, 1);
    FilterTally(All, Territory);
    FilterTally(All, Economy);
    FilterTally(All, Inequality);
    FilterTally(All, Trust);
  }
}

/** The author table of lib/content/authors.ts and its lookup. */
module Authors {
  import opened Js

  datatype Author = Author(name: string, slug: string, isMemorial: bool)

  const All: seq<Author> := [
    Author("Sven Steinmo", "sven-steinmo", true),
    Author("John D'Attoma", "john-dattoma", false)
  ]

  function HasSlug(slug: string): Author -> bool { (a: Author) => a.slug == slug }

  /** `getAuthorBySlug`. */
  function GetAuthorBySlug(slug: string): (r: Option<Author>)
    ensures r.Some? ==> r.value in All && r.value.slug == slug
    ensures r.None? <==> forall i :: 0 <= i < |All| ==> All[i].slug != slug
  {
    Find(All, HasSlug(slug))
  }

  /** The footer's author links (components/layout/Footer.tsx) resolve to
      the two authors; only Sven Steinmo's page is a memorial. */
  lemma FooterLinksResolve()
    ensures GetAuthorBySlug("sven-steinmo") == Some(All[0]) && All[0].isMemorial
    ensures GetAuthorBySlug("john-dattoma") == Some(All[1]) && !All[1].isMemorial
  {
    FindUnique(All, HasSlug("sven-steinmo"), 0);
    FindUnique(All, HasSlug("john-dattoma"), 1);
  }
}

/** How the tables refer to each other. */
module ContentLinks {
  import opened Js
  import Chapters
  import Figures

  /** Every figure's chapter is in the chapter table, and the chapter lists
      the figure's number among its related figures. */
  lemma FiguresBelongToChapters(i: nat)
    requires i < |Figures.All|
    ensures var f := Figures.All[i];
            && Chapters.GetChapterByNumber(f.chapter).Some?
            && f.number in Chapters.GetChapterByNumber(f.chapter).value.relatedFigures
  {
    var f := Figures.All[i];
    FigureListed(i);
    Chapters.NumberLookup(f.chapter);
  }

  /** The figure's number is in the related list of the chapter at its
      place in the chapter table. */
  lemma FigureListed(i: nat)
    requires i < |Figures.All|
    ensures 5 <= Figures.All[i].chapter <= 11
    ensures Figures.All[i].number in Chapters.All[Figures.All[i].chapter - 1].relatedFigures
  {
  }
}
