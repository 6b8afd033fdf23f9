/** What the script reads off its inputs: the score id from the URL, and
    the title and the page count from the score's page, each found by a
    regular expression (`SONG_REGEX`, `PAGES_REGEX`) searched for with
    `re.search`. Both expressions are fixed, so each is modelled as a
    scanner: a test of whether a match starts at the front of a string,
    and a search for the leftmost position where one does. */
module Metadata {
  import opened Optional
  import opened Strings

  /** `url.split("/")[-1]`: the last `/`-separated field of the URL. */
  function ScoreId(url: string): (id: string)
    ensures '/' !in id
    ensures |id| <= |url| && EndsWith(url, id)
    ensures '/' in url ==> |id| < |url| && url[|url| - |id| - 1] == '/'
    ensures '/' !in url ==> id == url
  {
    var fields := Split(url, '/');
    SplitJoin(url, '/');
    var n := |fields|;
    assert n > 1 ==> url == Join(fields[..n - 1], '/') + ['/'] + fields[n - 1];
    fields[n - 1]
  }

  /** A successful `re.search`: where the match starts and its group 1. */
  datatype Match = Match(start: nat, group: string)

  /** `re.search` for a pattern whose match at the front of a string is
      `at`: the leftmost position from `from` on where `at` succeeds, and
      the group found there. */
  function Search(at: string -> Option<string>, page: string, from: nat := 0): (m: Option<Match>)
    requires from <= |page|
    ensures m.Some? ==> from <= m.value.start <= |page| && at(page[m.value.start..]) == Some(m.value.group)
    ensures forall j :: from <= j <= |page| && (m.None? || j < m.value.start) ==> at(page[j..]).None?
    decreases |page| - from
  {
    match at(page[from..])
    case Some(group) => Some(Match(from, group))
    case None => if from == |page| then None else Search(at, page, from + 1)
  }

  /** The group of a search result. */
  function Group(m: Option<Match>): Option<string>
  {
    if m.Some? then Some(m.value.group) else None
  }

  /** Positions where nothing matches are passed over. */
  lemma {:induction false} SearchSkip(at: string -> Option<string>, s: string, from: nat, stop: nat)
    requires from <= stop <= |s|
    requires forall k :: from <= k < stop ==> at(s[k..]).None?
    ensures Search(at, s, from) == Search(at, s, stop)
    decreases stop - from
  {
    if from < stop {
      SearchSkip(at, s, from + 1, stop);
    }
  }

  /** Searching behind a fixed text finds the same groups as searching the
      rest on its own. */
  lemma {:induction false} SearchShift(at: string -> Option<string>, x: string, b: string, j: nat)
    requires j <= |b|
    ensures Group(Search(at, x + b, |x| + j)) == Group(Search(at, b, j))
    decreases |b| - j
  {
    var s := x + b;
    assert s[|x| + j..] == b[j..];
    if at(b[j..]).None? && j < |b| {
      SearchShift(at, x, b, j + 1);
    }
  }

  // The title: `property="og:title" content="([^"]+)"`.

  const TITLE_PREFIX := "property=\"og:title\" content=\""

  /** The longest prefix of `t` without a double quote. */
  function QuoteFreeRun(t: string): (run: string)
    ensures run <= t && '"' !in run
    ensures |run| == |t| || t[|run|] == '"'
  {
    if t == [] || t[0] == '"' then [] else [t[0]] + QuoteFreeRun(t[1..])
  }

  /** The title pattern matched at the front of `t`, with group 1. The
      greedy `[^"]+` takes the whole quote-free run, which the closing
      quote must then follow. */
  function TitleAt(t: string): (group: Option<string>)
    ensures group.Some? ==> |group.value| > 0 && '"' !in group.value
  {
    if TITLE_PREFIX <= t then
      var run := QuoteFreeRun(t[|TITLE_PREFIX|..]);
      if |run| > 0 && |TITLE_PREFIX| + |run| < |t| then Some(run) else None
    else None
  }

  /** The pattern read as the set of strings it matches at the front of `t`:
      the prefix, a non-empty quote-free group, a closing quote. */
  predicate IsTitleMatch(t: string, group: string)
  {
    && TITLE_PREFIX + group + "\"" <= t
    && |group| > 0
    && '"' !in group
  }

  /** `TitleAt` finds exactly the matches of the pattern. */
  lemma {:induction false} TitleAtIff(t: string, group: string)
    ensures TitleAt(t) == Some(group) <==> IsTitleMatch(t, group)
  {
    var p := |TITLE_PREFIX|;
    if IsTitleMatch(t, group) {
      var rest := t[p..];
      assert TITLE_PREFIX <= t;
      assert group + "\"" <= rest;
      var run := QuoteFreeRun(rest);
      assert rest[|group|] == '"';
      assert run == rest[..|run|] && group == rest[..|group|];
    }
    if TitleAt(t) == Some(group) {
      var rest := t[p..];
      assert t[p + |group|] == rest[|group|] == '"';
      assert TITLE_PREFIX + group + "\"" == t[..p + |group| + 1];
    }
  }

  /** `re.search(SONG_REGEX, page)[1]`: the group of the leftmost match of
      the title pattern, or `None` where the script fails because nothing
      matched. */
  function ExtractTitle(page: string): (title: Option<string>)
    ensures title.Some? ==> |title.value| > 0 && '"' !in title.value
    ensures title.Some? ==> exists j ::
      && 0 <= j <= |page|
      && IsTitleMatch(page[j..], title.value)
      && (forall k, g :: 0 <= k < j ==> !IsTitleMatch(page[k..], g))
    ensures title.None? <==> forall j, g :: 0 <= j <= |page| ==> !IsTitleMatch(page[j..], g)
  {
    var m := Search(TitleAt, page);
    if m.Some? then
      var j := m.value.start;
      TitleAtIff(page[j..], m.value.group);
      assert forall k, g :: 0 <= k < j ==> !IsTitleMatch(page[k..], g) by {
        forall k, g | 0 <= k < j ensures !IsTitleMatch(page[k..], g) {
          TitleAtIff(page[k..], g);
        }
      }
      Some(m.value.group)
    else
      assert forall j, g :: 0 <= j <= |page| ==> !IsTitleMatch(page[j..], g) by {
        forall j, g | 0 <= j <= |page| ensures !IsTitleMatch(page[j..], g) {
          TitleAtIff(page[j..], g);
        }
      }
      None
  }

  // The page count: `pages(?:&quot;|"):(\d+)`.

  const PAGES_ESCAPED := "pages&quot;:"
  const PAGES_QUOTED := "pages\":"

  /** The group of one alternative after its literal, if non-empty. */
  function DigitsAfter(t: string, literal: string): (group: Option<string>)
    requires literal <= t
    ensures group.Some? ==> |group.value| > 0 && AllDigits(group.value)
  {
    var run := LeadingDigits(t[|literal|..]);
    if |run| > 0 then Some(run) else None
  }

  /** The page-count pattern matched at the front of `t`, with group 1: the
      whole digit run, since `\d+` is greedy and nothing follows it. The
      alternatives cannot both match, as they differ in their sixth
      character. */
  function PagesAt(t: string): (group: Option<string>)
    ensures group.Some? ==> |group.value| > 0 && AllDigits(group.value)
  {
    if PAGES_ESCAPED <= t then DigitsAfter(t, PAGES_ESCAPED)
    else if PAGES_QUOTED <= t then DigitsAfter(t, PAGES_QUOTED)
    else None
  }

  /** The pattern read as the set of strings it matches at the front of `t`
      with the given alternative: the literal, then a maximal non-empty run
      of digits. */
  predicate IsPagesMatch(t: string, literal: string, group: string)
  {
    && literal + group <= t
    && |group| > 0 && AllDigits(group)
    && (|t| == |literal| + |group| || !IsDigit(t[|literal| + |group|]))
  }

  lemma {:induction false} DigitsAfterIff(t: string, literal: string, group: string)
    requires literal <= t
    ensures DigitsAfter(t, literal) == Some(group) <==> IsPagesMatch(t, literal, group)
  {
    var rest := t[|literal|..];
    LeadingDigitsIff(rest, group);
    assert t == literal + rest;
    if IsPagesMatch(t, literal, group) {
      assert group <= rest;
      assert |group| == |rest| || rest[|group|] == t[|literal| + |group|];
    }
  }

  /** `PagesAt` finds exactly the matches of the pattern, with either
      alternative. */
  lemma {:induction false} PagesAtIff(t: string, group: string)
    ensures PagesAt(t) == Some(group) <==>
      IsPagesMatch(t, PAGES_ESCAPED, group) || IsPagesMatch(t, PAGES_QUOTED, group)
  {
    if PAGES_ESCAPED <= t {
      DigitsAfterIff(t, PAGES_ESCAPED, group);
      assert !(PAGES_QUOTED <= t) by { assert t[5] == '&'; }
    } else if PAGES_QUOTED <= t {
      DigitsAfterIff(t, PAGES_QUOTED, group);
    }
  }

  /** `int(re.search(PAGES_REGEX, page)[1])`: the value of the digit run of
      the leftmost match, or `None` where the script fails because nothing
      matched. */
  function ExtractPageCount(page: string): (count: Option<nat>)
    ensures count.Some? ==> exists j, g :: (
      && 0 <= j <= |page|
      && (IsPagesMatch(page[j..], PAGES_ESCAPED, g) || IsPagesMatch(page[j..], PAGES_QUOTED, g))
      && count.value == DecimalValue(g)
      && (forall k, h :: 0 <= k < j ==>
            !IsPagesMatch(page[k..], PAGES_ESCAPED, h) && !IsPagesMatch(page[k..], PAGES_QUOTED, h)))
    ensures count.None? <==> forall j, g :: 0 <= j <= |page| ==>
      !IsPagesMatch(page[j..], PAGES_ESCAPED, g) && !IsPagesMatch(page[j..], PAGES_QUOTED, g)
  {
    var m := Search(PagesAt, page);
    if m.Some? then
      var j := m.value.start;
      PagesAtIff(page[j..], m.value.group);
      assert forall k, h :: 0 <= k < j ==>
        !IsPagesMatch(page[k..], PAGES_ESCAPED, h) && !IsPagesMatch(page[k..], PAGES_QUOTED, h) by {
        forall k, h | 0 <= k < j
          ensures !IsPagesMatch(page[k..], PAGES_ESCAPED, h) && !IsPagesMatch(page[k..], PAGES_QUOTED, h)
        {
          PagesAtIff(page[k..], h);
        }
      }
      Some(DecimalValue(m.value.group))
    else
      assert forall j, g :: 0 <= j <= |page| ==>
        !IsPagesMatch(page[j..], PAGES_ESCAPED, g) && !IsPagesMatch(page[j..], PAGES_QUOTED, g) by {
        forall j, g | 0 <= j <= |page|
          ensures !IsPagesMatch(page[j..], PAGES_ESCAPED, g) && !IsPagesMatch(page[j..], PAGES_QUOTED, g)
        {
          PagesAtIff(page[j..], g);
        }
      }
      None
  }

  predicate IsPagesLiteral(m: string) { m == PAGES_ESCAPED || m == PAGES_QUOTED }

  /** Only the first character of either literal is a `p`, so no match can
      start inside one of them. */
  lemma {:induction false} OnlyFirstCharIsP(lit: string)
    requires IsPagesLiteral(lit)
    ensures forall k :: 0 < k < |lit| ==> lit[k] != 'p'
  {
  }

  /** A match that starts before a literal `m` cannot reach into it: it is
      the match, if any, that the text before `m` has on its own. */
  lemma {:induction false} PagesAtBeforeLiteral(a: string, m: string, b: string)
    requires a != [] && IsPagesLiteral(m)
    ensures PagesAt(a + m + b) == PagesAt(a)
  {
    OnlyFirstCharIsP(PAGES_ESCAPED);
    OnlyFirstCharIsP(PAGES_QUOTED);
    LiteralAcross(a, m, b, PAGES_ESCAPED);
    LiteralAcross(a, m, b, PAGES_QUOTED);
  }

  /** A literal with no `p` after its first character, checked at a
      non-empty text `a` followed by something that starts with `p`: it
      matches there exactly when it matches `a` alone, and with the same
      digit run after it. */
  lemma {:induction false} LiteralAcross(a: string, m: string, b: string, lit: string)
    requires a != [] && m != [] && m[0] == 'p'
    requires forall k :: 0 < k < |lit| ==> lit[k] != 'p'
    ensures lit <= a + m + b <==> lit <= a
    ensures lit <= a ==> DigitsAfter(a + m + b, lit) == DigitsAfter(a, lit)
  {
    var t := a + m + b;
    if |a| < |lit| {
      assert t[|a|] == 'p';
    } else {
      assert t[..|lit|] == a[..|lit|];
      if lit <= a {
        assert t[|lit|..] == a[|lit|..] + (m + b);
        LeadingDigitsStop(a[|lit|..], m + b);
      }
    }
  }

  /** At a literal itself the group is the digit run that follows it,
      whichever of the two forms the literal takes. */
  lemma {:induction false} PagesAtLiteral(m: string, b: string)
    requires IsPagesLiteral(m)
    ensures PagesAt(m + b) == (if LeadingDigits(b) != [] then Some(LeadingDigits(b)) else None)
  {
    assert (m + b)[|m|..] == b;
    if m == PAGES_QUOTED {
      assert !(PAGES_ESCAPED <= m + b) by { assert (m + b)[5] == '"'; }
    }
  }

  /** No match starts strictly inside a literal. */
  lemma {:induction false} PagesAtInsideLiteral(m: string, k: nat, b: string)
    requires IsPagesLiteral(m) && 0 < k < |m|
    ensures PagesAt(m[k..] + b).None?
  {
    OnlyFirstCharIsP(m);
    assert (m[k..] + b)[0] == m[k];
  }

  /** The search from any position up to the literal sees the same groups
      in both forms of the markup. */
  lemma {:induction false} QuoteFormsFrom(a: string, b: string, from: nat)
    requires from <= |a|
    ensures Group(Search(PagesAt, a + PAGES_ESCAPED + b, from)) == Group(Search(PagesAt, a + PAGES_QUOTED + b, from))
    decreases |a| - from
  {
    if from < |a| {
      QuoteFormsBefore(a, b, from);
      QuoteFormsFrom(a, b, from + 1);
    } else {
      QuoteFormsAt(a, b);
    }
  }

  /** Before the literal both forms of the markup match alike. */
  lemma {:induction false} QuoteFormsBefore(a: string, b: string, from: nat)
    requires from < |a|
    ensures var s1, s2 := a + PAGES_ESCAPED + b, a + PAGES_QUOTED + b;
      PagesAt(s1[from..]) == PagesAt(s2[from..])
  {
    var s1, s2 := a + PAGES_ESCAPED + b, a + PAGES_QUOTED + b;
    assert s1[from..] == a[from..] + PAGES_ESCAPED + b;
    assert s2[from..] == a[from..] + PAGES_QUOTED + b;
    PagesAtBeforeLiteral(a[from..], PAGES_ESCAPED, b);
    PagesAtBeforeLiteral(a[from..], PAGES_QUOTED, b);
  }

  /** From the literal on, both forms of the markup give the same groups. */
  lemma {:induction false} QuoteFormsAt(a: string, b: string)
    ensures Group(Search(PagesAt, a + PAGES_ESCAPED + b, |a|)) == Group(Search(PagesAt, a + PAGES_QUOTED + b, |a|))
  {
    var s1, s2 := a + PAGES_ESCAPED + b, a + PAGES_QUOTED + b;
    assert s1[|a|..] == PAGES_ESCAPED + b;
    assert s2[|a|..] == PAGES_QUOTED + b;
    PagesAtLiteral(PAGES_ESCAPED, b);
    PagesAtLiteral(PAGES_QUOTED, b);
    if LeadingDigits(b) == [] {
      SkipLiteral(a, PAGES_ESCAPED, b);
      SkipLiteral(a, PAGES_QUOTED, b);
    }
  }

  /** When nothing matches at the literal, the search goes on after it as a
      search of the text that follows. */
  lemma {:induction false} SkipLiteral(a: string, m: string, b: string)
    requires IsPagesLiteral(m) && PagesAt(m + b).None?
    ensures Group(Search(PagesAt, a + m + b, |a|)) == Group(Search(PagesAt, b, 0))
  {
    var s := a + m + b;
    assert s[|a|..] == m + b;
    assert Search(PagesAt, s, |a|) == Search(PagesAt, s, |a| + 1);
    NoMatchInsideLiteral(a, m, b);
    SearchSkip(PagesAt, s, |a| + 1, |a| + |m|);
    SearchShift(PagesAt, a + m, b, 0);
  }

  /** In `a + m + b`, no match starts strictly inside the literal `m`. */
  lemma {:induction false} NoMatchInsideLiteral(a: string, m: string, b: string)
    requires IsPagesLiteral(m)
    ensures forall k :: |a| + 1 <= k < |a| + |m| ==> PagesAt((a + m + b)[k..]).None?
  {
    var s := a + m + b;
    forall k | |a| + 1 <= k < |a| + |m| ensures PagesAt(s[k..]).None? {
      assert s[k..] == m[k - |a|..] + b;
      PagesAtInsideLiteral(m, k - |a|, b);
    }
  }

  /** The page count does not depend on which of the two quote forms the
      page uses: `pages&quot;:` and `pages":` in the same markup yield the
      same count, or both fail. */
  lemma {:induction false} PageCountQuoteForms(a: string, b: string)
    ensures ExtractPageCount(a + PAGES_ESCAPED + b) == ExtractPageCount(a + PAGES_QUOTED + b)
  {
    QuoteFormsFrom(a, b, 0);
  }

  /** A page whose markup begins with the title tag yields that title. */
  lemma TitleExample()
    ensures ExtractTitle("property=\"og:title\" content=\"My Song\" />") == Some("My Song")
  {
    var page := "property=\"og:title\" content=\"My Song\" />";
    assert IsTitleMatch(page, "My Song") by {
      assert TITLE_PREFIX + "My Song" + "\"" == page[..37];
    }
    TitleAtIff(page, "My Song");
    assert page[0..] == page;
  }

  /** `pages":12` yields 12 pages. */
  lemma PageCountExample()
    ensures ExtractPageCount("pages\":12,") == Some(12)
  {
    var page := "pages\":12,";
    assert IsPagesMatch(page, PAGES_QUOTED, "12") by {
      assert PAGES_QUOTED + "12" == page[..9];
      assert page[9] == ',';
    }
    PagesAtIff(page, "12");
    assert page[0..] == page;
    assert DecimalValue("12") == 12 by {
      assert "12"[..1] == "1";
    }
  }

  /** `pages&quot;:12` yields the same 12 pages. */
  lemma EscapedPageCountExample()
    ensures ExtractPageCount("pages&quot;:12,") == Some(12)
  {
    var quoted, escaped := "pages\":12,", "pages&quot;:12,";
    assert quoted == "" + PAGES_QUOTED + "12,";
    assert escaped == "" + PAGES_ESCAPED + "12,";
    PageCountQuoteForms("", "12,");
    PageCountExample();
  }
}
