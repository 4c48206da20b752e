/** The theme filter of the figures gallery (app/figures/page.tsx). */
module FiguresPage {
  import opened Js
  import Order
  import opened Figures

  /** The filter buttons, in display order. */
  const Buttons: seq<string> := ["all", "territory", "economy", "inequality", "trust"]

  /** The theme shown when the page opens. */
  const InitialTheme := "all"

  function HasThemeId(id: string): Figure -> bool { (f: Figure) => ThemeId(f.theme) == id }

  /** `filteredFigures`: the whole table for "all", otherwise the figures
      whose theme is `active`, in table order. */
  function Filtered(active: string): (r: seq<Figure>)
    ensures active == "all" ==> r == All
    ensures active != "all" ==> forall f :: f in r <==> f in All && ThemeId(f.theme) == active
    ensures Order.IsSubseq(r, All)
  {
    if active == "all" then
      Order.SubseqRefl(All);
      All
    else
      Order.FilterSubseq(All, HasThemeId(active));
      Filter(All, HasThemeId(active))
  }

  /** Choosing a theme's button shows exactly `getFiguresByTheme` of it. */
  lemma FilterMatchesLookup(t: Theme)
    ensures Filtered(ThemeId(t)) == GetFiguresByTheme(t)
  {
    forall f | f in All ensures HasThemeId(ThemeId(t))(f) <==> HasTheme(t)(f) {
      ThemeIdInjective(f.theme, t);
    }
    FilterAgree(All, HasThemeId(ThemeId(t)), HasTheme(t));
  }

  /** A value that names no theme leaves the grid empty. */
  lemma UnknownThemeEmpty(active: string)
    requires active != "all"
    requires forall t: Theme :: ThemeId(t) != active
    ensures Filtered(active) == []
  {
    FilterNone(All, HasThemeId(active));
  }

  /** The count in a button's badge; the "all" button has none. */
  function Badge(id: string): (r: Option<nat>)
    ensures id == "all" <==> r.None?
    ensures r.Some? ==> r.value <= |All|
  {
    if id == "all" then None else Some(|Filter(All, HasThemeId(id))|)
  }

  /** `filteredFigures.length === 0`: the grid is empty exactly when the
      active value is not "all" and no figure has that theme. */
  predicate EmptyState(active: string): (r: bool)
    ensures r <==> active != "all" && forall f :: f in All ==> ThemeId(f.theme) != active
  {
    |Filtered(active)| == 0
  }

  /** After "all", the buttons are the four themes in declaration order. */
  lemma ButtonsAreThemes()
    ensures Buttons == ["all", ThemeId(Territory), ThemeId(Economy), ThemeId(Inequality), ThemeId(Trust)]
  {
  }

  /** A theme's badge announces how many figures its button will show. */
  lemma BadgeCountsFiltered(t: Theme)
    ensures Badge(ThemeId(t)) == Some(|Filtered(ThemeId(t))|)
    ensures |Filtered(ThemeId(t))| == |GetFiguresByTheme(t)|
  {
    FilterMatchesLookup(t);
  }

  /** The badges read 4, 5, 5 and 1, and together they count the whole gallery. */
  lemma BadgesCountTheGallery()
    ensures Badge(ThemeId(Territory)) == Some(4) && Badge(ThemeId(Economy)) == Some(5)
    ensures Badge(ThemeId(Inequality)) == Some(5) && Badge(ThemeId(Trust)) == Some(1)
    ensures Badge(ThemeId(Territory)).value + Badge(ThemeId(Economy)).value
            + Badge(ThemeId(Inequality)).value + Badge(ThemeId(Trust)).value == |Filtered("all")|
  {
    ThemeSizes();
    BadgeCountsFiltered(Territory);
    assert Badge(ThemeId(Territory)) == Some(4);
    BadgeCountsFiltered(Economy);
    assert Badge(ThemeId(Economy)) == Some(5);
    BadgeCountsFiltered(Inequality);
    assert Badge(ThemeId(Inequality)) == Some(5);
    BadgeCountsFiltered(Trust);
    assert Badge(ThemeId(Trust)) == Some(1);
    assert |Filtered("all")| == |All| == 15;
  }

  /** No button leads to the empty state; only a theme no button offers would. */
  lemma NoButtonEmpty()
    ensures !EmptyState("all")
    ensures forall t: Theme :: !EmptyState(ThemeId(t))
  {
    assert |Filtered("all")| == |All| == 15;
    forall t: Theme ensures !EmptyState(ThemeId(t)) {
      BadgeCountsFiltered(t);
      ThemeSizes();
      assert |GetFiguresByTheme(t)| > 0;
    }
  }
}

/** The chapter list of app/chapters/page.tsx. */
module ChaptersPage {
  import opened Js
  import Chapters
  import Figures

  /** `chapter.number.toString().padStart(2, '0')`. */
  function Label(n: nat): (r: string)
    ensures |r| == Max(2, |NumberToString(n)|)
    ensures forall i :: 0 <= i < |r| ==> '0' <= r[i] <= '9'
  {
    PadStart(NumberToString(n), 2, '0')
  }

  /** Single-digit numbers get one leading zero, longer ones are unchanged,
      and reading the label back as a decimal gives the number. */
  lemma LabelRoundTrip(n: nat)
    ensures n < 10 ==> Label(n) == ['0'] + NumberToString(n)
    ensures n >= 10 ==> Label(n) == NumberToString(n)
    ensures ParseDecimal(Label(n)) == n
  {
    var s := NumberToString(n);
    var r := Label(n);
    ParseNumberToString(n);
    if n < 10 {
      assert r == r[..1] + r[1..];
      assert r[..1] == ['0'];
      ParseLeadingZero(s);
    } else {
      assert r == r[|r| - |s|..];
    }
  }

  /** Distinct chapters get distinct labels. */
  lemma LabelsDistinct(m: nat, n: nat)
    requires m != n
    ensures Label(m) != Label(n)
  {
    LabelRoundTrip(m);
    LabelRoundTrip(n);
  }

  const MaxArgument := 60

  /** A key argument longer than 60 characters is cut to 60 and marked with
      "..."; a shorter one is shown whole. */
  function Truncate(arg: string): (r: string)
    ensures |arg| <= MaxArgument ==> r == arg
    ensures |arg| > MaxArgument ==> |r| == MaxArgument + 3 && r[..MaxArgument] == arg[..MaxArgument]
                                    && r[MaxArgument..] == "..."
  {
    if |arg| > MaxArgument then arg[..MaxArgument] + "..." else arg
  }

  /** A shown argument is never longer than 63 characters, and shortening
      an already shortened one changes nothing. */
  lemma TruncateIdempotent(arg: string)
    ensures |Truncate(arg)| <= MaxArgument + 3
    ensures Truncate(Truncate(arg)) == Truncate(arg)
  {
    if |arg| > MaxArgument {
      var r := Truncate(arg);
      assert r[..MaxArgument] == arg[..MaxArgument];
    }
  }

  /** `keyArguments.slice(0, 2)`, each shortened. */
  function Preview(args: seq<string>): (r: seq<string>)
    ensures |r| == Min(2, |args|)
    ensures forall i :: 0 <= i < |r| ==> r[i] == Truncate(args[i])
  {
    var shown := args[..Min(2, |args|)];
    seq(|shown|, i requires 0 <= i < |shown| => Truncate(shown[i]))
  }

  /** The "N figures" note: shown only when the chapter lists related items,
      counting every listed id. */
  function FigureNote(c: Chapters.Chapter): (r: Option<nat>)
    ensures r.None? <==> c.relatedFigures == []
    ensures r.Some? ==> r.value == |c.relatedFigures| && r.value > 0
  {
    if |c.relatedFigures| > 0 then Some(|c.relatedFigures|) else None
  }

  /** The note counts the tables listed with a chapter as figures: chapter 5
      says "7 figures" while the figures table holds five of that chapter. */
  lemma ChapterFiveNote()
    ensures FigureNote(Chapters.All[4]) == Some(7)
    ensures |Figures.GetFiguresByChapter(5)| == 5
  {
    assert |Chapters.All[4].relatedFigures| == 7;
    ChapterFiveFigures();
  }

  /** Chapter 5's figures are exactly the first five of the table. */
  lemma ChapterFiveFigures()
    ensures Figures.GetFiguresByChapter(5) == Figures.All[..5]
  {
    var s := Figures.All;
    var p := Figures.InChapter(5);
    assert s == s[..5] + s[5..];
    FilterConcat(s[..5], s[5..], p);
    ChapterFiveLeads();
    FilterAll(s[..5], p);
    FilterNone(s[5..], p);
  }

  /** The first five figures are chapter 5's, and no later one is. */
  lemma ChapterFiveLeads()
    ensures forall x :: x in Figures.All[..5] ==> x.chapter == 5
    ensures forall x :: x in Figures.All[5..] ==> x.chapter != 5
  {
    var s := Figures.All;
    assert forall k :: 0 <= k < 5 ==> s[k].chapter == 5;
    assert forall k :: 5 <= k < |s| ==> s[k].chapter >= 8;
    forall x | x in s[5..] ensures x.chapter != 5 {
      var k :| 0 <= k < |s| - 5 && s[5..][k] == x;
      assert x == s[5 + k];
    }
  }
}
