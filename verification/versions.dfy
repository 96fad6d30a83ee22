/**
 * `latest_versions()`: find the sidebar list that offers "All versions" and
 * turn each of its links into a (link, version, status) row, reading version
 * and status with the pattern `Python (?P<version>\d\.\d+) \((?P<status>.*)\)`.
 */
module Versions {
  import opened Wrappers
  import opened Exceptions
  import opened Text

  /** An `<a>` tag: its `href` attribute (absent if it has none) and its text. */
  datatype Link = Link(href: Option<string>, text: string)

  /** A `<ul>` of the sidebar: its whole text and every `<a>` inside it. */
  datatype LinkList = LinkList(text: string, links: seq<Link>)

  /** The documentation's main page, as far as `find_tag` sees it. */
  datatype DocPage = NoSidebar | Sidebar(lists: seq<LinkList>)

  /** One output row: link, version, status. */
  type Row = (string, string, string)

  const Header: Row := ("Ссылка на документацию", "Версия", "Статус")

  // ---------------------------------------------------------------------------
  // The pattern, recognised by hand

  /** A text the group `\d\.\d+` accepts. */
  predicate IsVersion(v: string)
  {
    |v| >= 3 && IsDigit(v[0]) && v[1] == '.' && AllDigits(v[2..])
  }

  /** A text the group `.*` accepts: `.` matches anything but a newline. */
  predicate NoNewline(s: string)
  {
    '\n' !in s
  }

  /** The text that the whole pattern matches for the groups `v` and `s`. */
  function Pattern(v: string, s: string): string
  {
    "Python " + v + " (" + s + ")"
  }

  /** The number of digits in the run starting at `i` (greedy `\d+`). */
  function DigitsFrom(t: string, i: nat): (n: nat)
    requires i <= |t|
    ensures i + n <= |t| && AllDigits(t[i..i + n])
    ensures i + n == |t| || !IsDigit(t[i + n])
    decreases |t| - i
  {
    if i == |t| || !IsDigit(t[i]) then 0
    else
      var n := DigitsFrom(t, i + 1);
      assert t[i..i + 1 + n] == [t[i]] + t[i + 1..i + 1 + n];
      1 + n
  }

  /** Where the line starting at `i` ends: the next newline, or the end of `t`. */
  function LineEnd(t: string, i: nat): (e: nat)
    requires i <= |t|
    ensures i <= e <= |t| && NoNewline(t[i..e])
    ensures e == |t| || t[e] == '\n'
    decreases |t| - i
  {
    if i == |t| || t[i] == '\n' then i
    else
      var e := LineEnd(t, i + 1);
      assert t[i..e] == [t[i]] + t[i + 1..e];
      e
  }

  /** The last `)` in `t[lo..hi]`, which the greedy `.*\)` stops at. */
  function LastClose(t: string, lo: nat, hi: nat): (r: Option<nat>)
    requires lo <= hi <= |t|
    ensures r.Some? ==> lo <= r.value < hi && t[r.value] == ')'
    ensures r.Some? ==> forall m :: r.value < m < hi ==> t[m] != ')'
    ensures r.None? ==> forall m :: lo <= m < hi ==> t[m] != ')'
    decreases hi - lo
  {
    if hi == lo then None
    else if t[hi - 1] == ')' then Some(hi - 1)
    else LastClose(t, lo, hi - 1)
  }

  /** The groups of a match of the pattern that starts at index `i` of `t`. */
  function MatchAt(t: string, i: nat): Option<(string, string)>
    requires i <= |t|
  {
    if !(i + 9 <= |t| && t[i..i + 7] == "Python " && IsDigit(t[i + 7]) && t[i + 8] == '.') then None
    else
      var j := i + 9 + DigitsFrom(t, i + 9);
      if j == i + 9 || !(j + 2 <= |t| && t[j] == ' ' && t[j + 1] == '(') then None
      else
        match LastClose(t, j + 2, LineEnd(t, j + 2))
        case None => None
        case Some(k) => Some((t[i + 7..j], t[j + 2..k]))
  }

  /** `re.search` from index `i` on: the leftmost match. */
  function SearchFrom(t: string, i: nat): Option<(string, string)>
    requires i <= |t|
    decreases |t| - i
  {
    match MatchAt(t, i)
    case Some(groups) => Some(groups)
    case None => if i == |t| then None else SearchFrom(t, i + 1)
  }

  /** `re.search(pattern, text).groups()`, or none when nothing matches. */
  function VersionMatch(t: string): Option<(string, string)>
  {
    SearchFrom(t, 0)
  }

  /** What a link's text becomes: the two groups, or the whole text and `''`. */
  function ParseLinkText(text: string): (string, string)
  {
    match VersionMatch(text)
    case Some(groups) => groups
    case None => (text, "")
  }

  /** A digit run of length `m` ended by a non-digit or the end of `t` is what `DigitsFrom` measures. */
  lemma {:induction false} DigitsFromExact(t: string, p: nat, m: nat)
    requires p + m <= |t| && AllDigits(t[p..p + m])
    requires p + m == |t| || !IsDigit(t[p + m])
    ensures DigitsFrom(t, p) == m
    decreases m
  {
    if m > 0 {
      assert t[p..p + m][0] == t[p];
      assert t[p + 1..p + m] == t[p..p + m][1..];
      DigitsFromExact(t, p + 1, m - 1);
    }
  }

  /** Where the pieces of a match at `i` sit: the version ends at `j`, the `)` is at `k`. */
  lemma MatchAtBounds(t: string, i: nat) returns (j: nat, k: nat)
    requires i <= |t| && MatchAt(t, i).Some?
    ensures i + 9 < j && j + 2 <= k < |t|
    ensures MatchAt(t, i) == Some((t[i + 7..j], t[j + 2..k]))
    ensures t[i..i + 7] == "Python " && IsDigit(t[i + 7]) && t[i + 8] == '.' && AllDigits(t[i + 9..j])
    ensures t[j] == ' ' && t[j + 1] == '(' && t[k] == ')' && NoNewline(t[j + 2..k])
  {
    j := i + 9 + DigitsFrom(t, i + 9);
    var e := LineEnd(t, j + 2);
    k := LastClose(t, j + 2, e).value;
    assert t[j + 2..k] == t[j + 2..e][..k - (j + 2)];
  }

  /** Pieces laid side by side in `t` make an occurrence of the pattern's text. */
  lemma AssembleOccurrence(t: string, i: nat, j: nat, k: nat)
    requires i + 7 <= j && j + 2 <= k < |t|
    requires t[i..i + 7] == "Python " && t[j] == ' ' && t[j + 1] == '(' && t[k] == ')'
    ensures OccursAt(t, Pattern(t[i + 7..j], t[j + 2..k]), i)
  {
    assert t[i..k + 1] == t[i..i + 7] + t[i + 7..j] + t[j..j + 2] + t[j + 2..k] + t[k..k + 1];
    assert t[j..j + 2] == " (" && t[k..k + 1] == ")";
  }

  /** What a match at `i` yields: a version of the form `D.D+`, a one-line status, and the pattern's text at `i`. */
  lemma MatchAtSound(t: string, i: nat)
    requires i <= |t| && MatchAt(t, i).Some?
    ensures IsVersion(MatchAt(t, i).value.0) && NoNewline(MatchAt(t, i).value.1)
    ensures OccursAt(t, Pattern(MatchAt(t, i).value.0, MatchAt(t, i).value.1), i)
  {
    var j, k := MatchAtBounds(t, i);
    var v := t[i + 7..j];
    assert v[0] == t[i + 7] && v[1] == t[i + 8] && v[2..] == t[i + 9..j];
    AssembleOccurrence(t, i, j, k);
  }

  /** Any slice of an occurrence of `p` at `i` is the same slice of `p`. */
  lemma OccurrenceSlice(t: string, p: string, i: nat, a: nat, b: nat)
    requires OccursAt(t, p, i) && a <= b <= |p|
    ensures t[i + a..i + b] == p[a..b]
  {
    forall m | 0 <= m < b - a
      ensures t[i + a..i + b][m] == p[a..b][m]
    {
      assert t[i..i + |p|][a + m] == t[i + a + m];
    }
  }

  /** The pieces of an occurrence of the pattern's text at `i`. */
  lemma OccurrencePieces(t: string, i: nat, v: string, s: string)
    requires |v| >= 2 && OccursAt(t, Pattern(v, s), i)
    ensures t[i..i + 7] == "Python "
    ensures t[i + 7..i + 7 + |v|] == v
    ensures t[i + 7 + |v|] == ' ' && t[i + 8 + |v|] == '('
    ensures t[i + 9 + |v|..i + 9 + |v| + |s|] == s && t[i + 9 + |v| + |s|] == ')'
  {
    var p := Pattern(v, s);
    var j := 7 + |v|;
    var c := j + 2 + |s|;
    assert p[..7] == "Python " && p[7..j] == v && p[j..j + 2] == " (" && p[j + 2..c] == s && p[c..c + 1] == ")";
    OccurrenceSlice(t, p, i, 0, 7);
    OccurrenceSlice(t, p, i, 7, j);
    OccurrenceSlice(t, p, i, j, j + 2);
    OccurrenceSlice(t, p, i, j + 2, c);
    OccurrenceSlice(t, p, i, c, c + 1);
    assert t[i + j..i + j + 2][0] == t[i + j] && t[i + j..i + j + 2][1] == t[i + j + 1];
    assert t[i + c..i + c + 1][0] == t[i + c];
  }

  /** A version `v` written at `a` and not followed by a digit is read whole by `\d\.\d+`. */
  lemma VersionAt(t: string, a: nat, v: string)
    requires IsVersion(v) && a + |v| < |t| && t[a..a + |v|] == v && !IsDigit(t[a + |v|])
    ensures IsDigit(t[a]) && t[a + 1] == '.'
    ensures a + 2 + DigitsFrom(t, a + 2) == a + |v|
  {
    assert t[a] == v[0] && t[a + 1] == v[1];
    assert t[a + 2..a + |v|] == v[2..];
    DigitsFromExact(t, a + 2, |v| - 2);
  }

  /** The line starting at `p` runs past every position up to `q` that holds no newline. */
  lemma LineEndPast(t: string, p: nat, q: nat)
    requires p <= q < |t| && NoNewline(t[p..q + 1])
    ensures LineEnd(t, p) > q
  {
  }

  /** A `)` at `c` in `t[lo..hi]` means the last `)` there is at `c` or later. */
  lemma LastCloseAtLeast(t: string, lo: nat, hi: nat, c: nat)
    requires lo <= c < hi <= |t| && t[c] == ')'
    ensures LastClose(t, lo, hi).Some? && LastClose(t, lo, hi).value >= c
  {
  }

  /** The groups `MatchAt` reads once each of its tests has passed. */
  lemma MatchAtOf(t: string, i: nat, j: nat, k: nat)
    requires i + 9 < j && j + 2 <= |t| && j == i + 9 + DigitsFrom(t, i + 9)
    requires t[i..i + 7] == "Python " && IsDigit(t[i + 7]) && t[i + 8] == '.'
    requires t[j] == ' ' && t[j + 1] == '('
    requires LastClose(t, j + 2, LineEnd(t, j + 2)) == Some(k)
    ensures MatchAt(t, i) == Some((t[i + 7..j], t[j + 2..k]))
  {
  }

  /**
   * A one-line status `s` at `p` closed by a `)` leads `.*\)` to a `)` at or
   * after that one, so the group it captures starts with `s`.
   */
  lemma StatusClose(t: string, p: nat, s: string) returns (k: nat)
    requires NoNewline(s) && p + |s| < |t| && t[p..p + |s|] == s && t[p + |s|] == ')'
    ensures LastClose(t, p, LineEnd(t, p)) == Some(k)
    ensures s <= t[p..k]
  {
    var close := p + |s|;
    assert t[p..close + 1] == s + [')'];
    LineEndPast(t, p, close);
    var e := LineEnd(t, p);
    LastCloseAtLeast(t, p, e, close);
    k := LastClose(t, p, e).value;
    assert t[p..k][..|s|] == t[p..close];
  }

  /**
   * Wherever the pattern's text occurs, a match starts there, with the same
   * version and a status that extends the occurrence's (the `.*` is greedy).
   */
  lemma MatchAtComplete(t: string, i: nat, v: string, s: string)
    requires IsVersion(v) && NoNewline(s) && OccursAt(t, Pattern(v, s), i)
    ensures MatchAt(t, i).Some?
    ensures MatchAt(t, i).value.0 == v && s <= MatchAt(t, i).value.1
  {
    OccurrencePieces(t, i, v, s);
    var j := i + 7 + |v|;
    VersionAt(t, i + 7, v);
    var k := StatusClose(t, j + 2, s);
    MatchAtOf(t, i, j, k);
  }

  /** A successful search from `lo` is the first match at or after `lo`. */
  lemma {:induction false} SearchFromLeftmost(t: string, lo: nat) returns (i: nat)
    requires lo <= |t| && SearchFrom(t, lo).Some?
    ensures lo <= i <= |t| && MatchAt(t, i) == SearchFrom(t, lo)
    ensures forall m :: lo <= m < i ==> MatchAt(t, m).None?
    decreases |t| - lo
  {
    if MatchAt(t, lo).Some? {
      i := lo;
    } else {
      i := SearchFromLeftmost(t, lo + 1);
    }
  }

  /** A search from `lo` succeeds when some position at or after `lo` matches. */
  lemma {:induction false} SearchFromFinds(t: string, lo: nat, i: nat)
    requires lo <= i <= |t| && MatchAt(t, i).Some?
    ensures SearchFrom(t, lo).Some?
    decreases i - lo
  {
    if lo < i && MatchAt(t, lo).None? {
      SearchFromFinds(t, lo + 1, i);
    }
  }

  /** `re.search` succeeds exactly on texts that contain the pattern's text somewhere. */
  lemma VersionMatchIffOccurs(t: string)
    ensures VersionMatch(t).Some? <==>
      exists i: nat, v, s :: IsVersion(v) && NoNewline(s) && OccursAt(t, Pattern(v, s), i)
    ensures VersionMatch(t).Some? ==>
      IsVersion(VersionMatch(t).value.0) && NoNewline(VersionMatch(t).value.1)
  {
    if VersionMatch(t).Some? {
      var i := SearchFromLeftmost(t, 0);
      MatchAtSound(t, i);
    }
    if i: nat, v, s :| IsVersion(v) && NoNewline(s) && OccursAt(t, Pattern(v, s), i) {
      MatchAtComplete(t, i, v, s);
      SearchFromFinds(t, 0, i);
    }
  }

  /** A link text made of the pattern alone gives back exactly its version and status. */
  lemma VersionMatchRoundTrip(v: string, s: string)
    requires IsVersion(v) && NoNewline(s)
    ensures VersionMatch(Pattern(v, s)) == Some((v, s))
    ensures ParseLinkText(Pattern(v, s)) == (v, s)
  {
    var t := Pattern(v, s);
    assert t[0..|t|] == t;
    MatchAtComplete(t, 0, v, s);
    MatchAtSound(t, 0);
    var st := MatchAt(t, 0).value.1;
    assert |Pattern(v, st)| <= |t|;
    assert st[..|s|] == s;
  }

  /** A link text without the pattern is kept whole, with an empty status. */
  lemma UnmatchedTextKept(text: string)
    requires forall i: nat, v, s :: IsVersion(v) && NoNewline(s) ==> !OccursAt(text, Pattern(v, s), i)
    ensures ParseLinkText(text) == (text, "")
  {
    VersionMatchIffOccurs(text);
  }

  // ---------------------------------------------------------------------------
  // What `latest_versions()` computes

  /** The index of the first list whose text mentions `All versions`. */
  function FirstAllVersions(lists: seq<LinkList>): (r: Option<nat>)
    ensures r.Some? ==> r.value < |lists| && Contains(lists[r.value].text, "All versions")
    ensures r.Some? ==> forall k :: 0 <= k < r.value ==> !Contains(lists[k].text, "All versions")
    ensures r.None? ==> forall k :: 0 <= k < |lists| ==> !Contains(lists[k].text, "All versions")
  {
    if lists == [] then None
    else if Contains(lists[0].text, "All versions") then Some(0)
    else match FirstAllVersions(lists[1..])
      case None => None
      case Some(k) => Some(k + 1)
  }

  /** The row of one link; none when the link has no `href`. */
  function LinkRow(link: Link): Option<Row>
  {
    match link.href
    case None => None
    case Some(href) =>
      var (version, status) := ParseLinkText(link.text);
      Some((href, version, status))
  }

  /** The rows of the links, in link order; none if a link has no `href`. */
  function LinkRows(links: seq<Link>): Option<seq<Row>>
  {
    if links == [] then Some([])
    else
      match LinkRows(links[..|links| - 1])
      case None => None
      case Some(rows) =>
        match LinkRow(links[|links| - 1])
        case None => None
        case Some(row) => Some(rows + [row])
  }

  /**
   * The rows exist exactly when every link has an `href`, and then there is
   * one per link, in link order.
   */
  lemma {:induction false} LinkRowsPerLink(links: seq<Link>)
    ensures LinkRows(links).Some? <==> forall k :: 0 <= k < |links| ==> links[k].href.Some?
    ensures LinkRows(links).Some? ==> |LinkRows(links).value| == |links|
    ensures LinkRows(links).Some? ==>
      forall k :: 0 <= k < |links| ==> Some(LinkRows(links).value[k]) == LinkRow(links[k])
  {
    if links != [] {
      var init := links[..|links| - 1];
      LinkRowsPerLink(init);
      assert forall k :: 0 <= k < |init| ==> init[k] == links[k];
    }
  }

  /** The whole of `latest_versions()`, from the main page (absent if its fetch failed). */
  function LatestVersionsRun(page: Option<DocPage>): Run<seq<Row>>
  {
    match page
    case None => NoResponse
    case Some(NoSidebar) => Raised(FindTag("div"))
    case Some(Sidebar(lists)) =>
      match FirstAllVersions(lists)
      case None => Raised(FindUrl)
      case Some(k) =>
        match LinkRows(lists[k].links)
        case None => Raised(MissingHref)
        case Some(rows) => Returned([Header] + rows)
  }

  /**
   * The `for a_tag in a_tags` loop of `latest_versions()`: the rows of the
   * links in order, or none once a link without `href` raises.
   */
  method ReadLinks(aTags: seq<Link>) returns (rows: Option<seq<Row>>)
    ensures rows == LinkRows(aTags)
  {
    var results := [];
    var j := 0;
    while j < |aTags|
      invariant 0 <= j <= |aTags|
      invariant LinkRows(aTags[..j]) == Some(results)
    {
      var aTag := aTags[j];
      assert aTags[..j + 1][..j] == aTags[..j];
      if aTag.href.None? {
        LinkRowsPerLink(aTags);
        return None;
      }
      var link := aTag.href.value;
      var textMatch := VersionMatch(aTag.text);
      var version, status;
      if textMatch.Some? {
        version, status := textMatch.value.0, textMatch.value.1;
      } else {
        version, status := aTag.text, "";
      }
      assert LinkRow(aTag) == Some((link, version, status));
      results := results + [(link, version, status)];
      j := j + 1;
    }
    assert aTags[..j] == aTags;
    return Some(results);
  }

  /** `latest_versions(session)`. */
  method LatestVersions(page: Option<DocPage>) returns (r: Run<seq<Row>>)
    ensures r == LatestVersionsRun(page)
  {
    if page.None? {
      return NoResponse;
    }
    if page.value.NoSidebar? {
      return Raised(FindTag("div"));
    }
    var ulTags := page.value.lists;
    var aTags: seq<Link> := [];
    var found := false;
    var i := 0;
    while i < |ulTags|
      invariant 0 <= i <= |ulTags|
      invariant forall k :: 0 <= k < i ==> !Contains(ulTags[k].text, "All versions")
    {
      if Contains(ulTags[i].text, "All versions") {
        aTags := ulTags[i].links;
        found := true;
        break;
      }
      i := i + 1;
    }
    if !found {
      return Raised(FindUrl);
    }
    assert FirstAllVersions(ulTags) == Some(i);
    var rows := ReadLinks(aTags);
    if rows.None? {
      return Raised(MissingHref);
    }
    return Returned([Header] + rows.value);
  }

  /** The `for`/`else` raises exactly when no list of the sidebar mentions `All versions`. */
  lemma NoVersionListIffRaised(lists: seq<LinkList>)
    ensures LatestVersionsRun(Some(Sidebar(lists))) == Raised(FindUrl) <==>
      forall k :: 0 <= k < |lists| ==> !Contains(lists[k].text, "All versions")
  {
  }

  /**
   * The returned table is the header followed by one row per link of the
   * first list that mentions `All versions`, in link order: the link's `href`
   * and the version and status read from its text.
   */
  lemma LatestVersionsTable(lists: seq<LinkList>)
    requires LatestVersionsRun(Some(Sidebar(lists))).Returned?
    ensures var k := FirstAllVersions(lists).value;
            var links := lists[k].links;
            var rows := LatestVersionsRun(Some(Sidebar(lists))).value;
            && |rows| == |links| + 1 && rows[0] == Header
            && forall m :: 0 <= m < |links| ==>
                 && links[m].href == Some(rows[m + 1].0)
                 && (rows[m + 1].1, rows[m + 1].2) == ParseLinkText(links[m].text)
  {
    var k := FirstAllVersions(lists).value;
    var links := lists[k].links;
    var rows := LinkRows(links).value;
    assert LatestVersionsRun(Some(Sidebar(lists))) == Returned([Header] + rows);
    LinkRowsPerLink(links);
    forall m | 0 <= m < |links|
      ensures links[m].href == Some(([Header] + rows)[m + 1].0)
      ensures (([Header] + rows)[m + 1].1, ([Header] + rows)[m + 1].2) == ParseLinkText(links[m].text)
    {
      assert ([Header] + rows)[m + 1] == rows[m];
      assert Some(rows[m]) == LinkRow(links[m]);
    }
  }
}
