/**
 * The blogroll page builders scripts/build_rss.py and _tools/build_rss.py.
 * Each walks the feed entries it is given, keeps the recent ones as
 * (url, title, date) links, sorts them newest first and appends one list
 * item per link to a page. Feed parsing, the clock, date parsing, date
 * formatting and HTML-tag stripping are parameters; dates are integers.
 */
module Blogroll {
  import opened Wrappers

  // ---------------------------------------------------------------- strip_protocol

  /** `str.lstrip(chars)`: drops the longest prefix made only of characters
      from the set, whatever order they come in. */
  function LStrip(s: string, chars: set<char>): (r: string)
    ensures |r| <= |s| && r == s[|s| - |r|..]
    ensures forall i :: 0 <= i < |s| - |r| ==> s[i] in chars
    ensures r == [] || r[0] !in chars
  {
    if s != [] && s[0] in chars then LStrip(s[1..], chars) else s
  }

  const HttpsChars: set<char> := {'h', 't', 'p', 's', ':', '/'}
  const HttpChars: set<char> := {'h', 't', 'p', ':', '/'}

  predicate StartsWith(s: string, prefix: string) {
    |prefix| <= |s| && s[..|prefix|] == prefix
  }

  /** `strip_protocol`, identical in both files: each scheme test is a prefix
      test, but the stripping is `lstrip` with the scheme's characters. */
  function StripProtocol(url: string): (r: string)
    ensures |r| <= |url| && r == url[|url| - |r|..]
    ensures !StartsWith(url, "https://") && !StartsWith(url, "http://") ==> r == url
    ensures StartsWith(url, "https://") ==> (r == [] || r[0] !in HttpsChars)
    ensures StartsWith(url, "https://") ==> forall i :: 0 <= i < |url| - |r| ==> url[i] in HttpsChars
    ensures !StartsWith(url, "https://") && StartsWith(url, "http://") ==> (r == [] || r[0] !in HttpChars)
    ensures !StartsWith(url, "https://") && StartsWith(url, "http://") ==>
              forall i :: 0 <= i < |url| - |r| ==> url[i] in HttpChars
  {
    if StartsWith(url, "https://") then LStrip(url, HttpsChars)
    else if StartsWith(url, "http://") then LStrip(url, HttpChars)
    else url
  }

  /** The character-set stripping eats into the host name: "https://store.io"
      loses the "st" of "store". */
  lemma StripProtocolStoreExample()
    ensures StripProtocol("https://store.io") == "ore.io"
  {
    var u := "https://store.io";
    assert StartsWith(u, "https://");
    StripsWholePrefix(u, 10, HttpsChars);
    assert u[10..] == "ore.io";
  }

  /** With "http://" the set has no 's', so "http://photos.net" loses "ph". */
  lemma StripProtocolPhotosExample()
    ensures StripProtocol("http://photos.net") == "otos.net"
  {
    var u := "http://photos.net";
    assert u[..8][4] != "https://"[4];
    assert StartsWith(u, "http://");
    StripsWholePrefix(u, 9, HttpChars);
    assert u[9..] == "otos.net";
  }

  /** A host that starts outside the set comes out as the plain host name. */
  lemma StripProtocolExampleCom()
    ensures StripProtocol("https://example.com") == "example.com"
  {
    var u := "https://example.com";
    assert StartsWith(u, "https://");
    StripsWholePrefix(u, 8, HttpsChars);
    assert u[8..] == "example.com";
  }

  lemma {:induction false} StripsWholePrefix(s: string, n: nat, chars: set<char>)
    requires n <= |s|
    requires forall i :: 0 <= i < n ==> s[i] in chars
    requires n == |s| || s[n] !in chars
    ensures LStrip(s, chars) == s[n..]
  {
    if n > 0 {
      StripsWholePrefix(s[1..], n - 1, chars);
      assert s[1..][n - 1..] == s[n..];
    }
  }

  /** Stripping twice is stripping once: what is left never starts with a
      scheme again. */
  lemma StripProtocolIdempotent(url: string)
    ensures StripProtocol(StripProtocol(url)) == StripProtocol(url)
  {
    var r := StripProtocol(url);
    if StartsWith(url, "https://") || StartsWith(url, "http://") {
      assert r == [] || r[0] != 'h';
      assert |r| >= 7 ==> r[..7][0] == r[0];
      assert |r| >= 8 ==> r[..8][0] == r[0];
    }
  }

  /** What `strip_protocol` evidently means to do: remove the scheme prefix
      and nothing more. */
  function StripProtocolIntended(url: string): (r: string)
    ensures StartsWith(url, "https://") ==> url == "https://" + r
    ensures !StartsWith(url, "https://") && StartsWith(url, "http://") ==> url == "http://" + r
    ensures !StartsWith(url, "https://") && !StartsWith(url, "http://") ==> r == url
  {
    if StartsWith(url, "https://") then url[8..]
    else if StartsWith(url, "http://") then url[7..]
    else url
  }

  /** The intended version keeps the host whole, whatever letters it starts with. */
  lemma StripProtocolIntendedKeepsHost(host: string)
    ensures StripProtocolIntended("https://" + host) == host
    ensures StripProtocolIntended("http://" + host) == host
  {
    assert |"http://" + host| >= 8 ==> ("http://" + host)[..8][4] != "https://"[4];
    assert ("https://" + host)[..8] == "https://";
    assert ("https://" + host)[8..] == host;
    assert ("http://" + host)[..7] == "http://";
    assert ("http://" + host)[7..] == host;
  }

  // ---------------------------------------------------------------- collecting links

  /** A feed entry as far as the builders look at it: `links` is absent when the
      entry has no such attribute, and otherwise holds each link's `href`,
      None for a link without one. */
  datatype Entry = Entry(links: Option<seq<Option<string>>>, title: Option<string>,
                         published: Option<string>, updated: Option<string>)

  datatype Link = Link(url: string, title: string, date: int)

  /** scripts/build_rss.py reads `entry.links` unconditionally; _tools/build_rss.py
      first skips entries without that attribute. */
  datatype Version = Scripts | Tools

  /** The exceptions that escape the loop and end the run: no `links`
      attribute, an empty list (IndexError), a first link without `href`
      (KeyError), no `title`. */
  datatype Crash = MissingLinks | EmptyLinks | MissingHref | MissingTitle

  /** `entry.get("published") or entry.get("updated")`: an empty published
      date counts as missing. */
  function DateText(e: Entry): Option<string> {
    if e.published.Some? && e.published.value != "" then e.published else e.updated
  }

  /** The date the loop parses; no date text or a text `parse` rejects is the
      exception that makes the loop skip the entry. */
  function EntryDate(e: Entry, parse: string -> Option<int>): Option<int> {
    match DateText(e)
    case None => None
    case Some(t) => parse(t)
  }

  /** One turn of the loop: a crash, a skipped entry, or the link it appends. */
  function Step(v: Version, e: Entry, parse: string -> Option<int>, cutoff: int): Result<Option<Link>, Crash> {
    if e.links.None? then (if v == Tools then Ok(None) else Err(MissingLinks))
    else if e.links.value == [] then Err(EmptyLinks)
    else if e.links.value[0].None? then Err(MissingHref)
    else if e.title.None? then Err(MissingTitle)
    else match EntryDate(e, parse)
      case None => Ok(None)
      case Some(d) => if d >= cutoff then Ok(Some(Link(e.links.value[0].value, e.title.value, d))) else Ok(None)
  }

  /** The `links` list after the loop has run over es. */
  function Collected(v: Version, es: seq<Entry>, parse: string -> Option<int>, cutoff: int): (r: Result<seq<Link>, Crash>)
    ensures r.Ok? ==> |r.value| <= |es|
  {
    if es == [] then Ok([])
    else
      match Collected(v, es[..|es| - 1], parse, cutoff)
      case Err(c) => Err(c)
      case Ok(ks) =>
        match Step(v, es[|es| - 1], parse, cutoff)
        case Err(c) => Err(c)
        case Ok(None) => Ok(ks)
        case Ok(Some(l)) => Ok(ks + [l])
  }

  /** The links of the entries that pass, in entry order: an independent
      statement of what the loop keeps when nothing crashes. */
  function Admitted(v: Version, es: seq<Entry>, parse: string -> Option<int>, cutoff: int): seq<Link> {
    if es == [] then []
    else
      (match Step(v, es[0], parse, cutoff) case Ok(Some(l)) => [l] case _ => [])
      + Admitted(v, es[1..], parse, cutoff)
  }

  /** The first-loop part of `write_html_with_updates`. */
  method CollectLinks(v: Version, entries: seq<Entry>, parse: string -> Option<int>, cutoff: int)
    returns (r: Result<seq<Link>, Crash>)
    ensures r == Collected(v, entries, parse, cutoff)
  {
    var links: seq<Link> := [];
    var i := 0;
    while i < |entries|
      invariant 0 <= i <= |entries|
      invariant Collected(v, entries[..i], parse, cutoff) == Ok(links)
    {
      assert entries[..i + 1][..i] == entries[..i];
      var e := entries[i];
      if e.links.None? {
        if v == Tools {
          i := i + 1;
          continue;
        }
        CrashPersists(v, entries, i + 1, parse, cutoff);
        return Err(MissingLinks);
      }
      if e.links.value == [] {
        CrashPersists(v, entries, i + 1, parse, cutoff);
        return Err(EmptyLinks);
      }
      if e.links.value[0].None? {
        CrashPersists(v, entries, i + 1, parse, cutoff);
        return Err(MissingHref);
      }
      var url := e.links.value[0].value;
      if e.title.None? {
        CrashPersists(v, entries, i + 1, parse, cutoff);
        return Err(MissingTitle);
      }
      var title := e.title.value;
      var d := DateText(e);
      var date := if d.None? then None else parse(d.value);
      if date.None? {
        i := i + 1;
        continue;
      }
      if date.value >= cutoff {
        links := links + [Link(url, title, date.value)];
      }
      i := i + 1;
    }
    assert entries[..i] == entries;
    return Ok(links);
  }

  /** Once the loop has crashed, later entries change nothing. */
  lemma {:induction false} CrashPersists(v: Version, es: seq<Entry>, n: nat, parse: string -> Option<int>, cutoff: int)
    requires n <= |es|
    requires Collected(v, es[..n], parse, cutoff).Err?
    ensures Collected(v, es, parse, cutoff) == Collected(v, es[..n], parse, cutoff)
    decreases |es| - n
  {
    if n < |es| {
      assert es[..n + 1][..n] == es[..n];
      CrashPersists(v, es, n + 1, parse, cutoff);
    } else {
      assert es[..n] == es;
    }
  }

  /** The loop crashes exactly when some entry makes it crash, and otherwise
      keeps the admitted links in entry order. */
  lemma {:induction false} CollectedIsAdmitted(v: Version, es: seq<Entry>, parse: string -> Option<int>, cutoff: int)
    ensures Collected(v, es, parse, cutoff).Err? <==> exists i :: 0 <= i < |es| && Step(v, es[i], parse, cutoff).Err?
    ensures Collected(v, es, parse, cutoff).Ok? ==> Collected(v, es, parse, cutoff).value == Admitted(v, es, parse, cutoff)
  {
    if es != [] {
      var init := es[..|es| - 1];
      var last := es[|es| - 1];
      CollectedIsAdmitted(v, init, parse, cutoff);
      AdmittedSnoc(v, init, last, parse, cutoff);
      assert init + [last] == es;
      forall i | 0 <= i < |init| ensures init[i] == es[i] { }
      if Collected(v, es, parse, cutoff).Err? && Collected(v, init, parse, cutoff).Ok? {
        assert Step(v, es[|es| - 1], parse, cutoff).Err?;
      }
      if exists i :: 0 <= i < |es| && Step(v, es[i], parse, cutoff).Err? {
        var i :| 0 <= i < |es| && Step(v, es[i], parse, cutoff).Err?;
        if i < |init| {
          assert Step(v, init[i], parse, cutoff).Err?;
        }
      }
    }
  }

  lemma {:induction false} AdmittedSnoc(v: Version, es: seq<Entry>, e: Entry, parse: string -> Option<int>, cutoff: int)
    ensures Admitted(v, es + [e], parse, cutoff)
         == Admitted(v, es, parse, cutoff) + (match Step(v, e, parse, cutoff) case Ok(Some(l)) => [l] case _ => [])
  {
    if es == [] {
      assert [e][1..] == [];
    } else {
      var t := es + [e];
      assert t[0] == es[0];
      assert t[1..] == es[1..] + [e];
      var k0 := match Step(v, es[0], parse, cutoff) case Ok(Some(l)) => [l] case _ => [];
      assert Admitted(v, t, parse, cutoff) == k0 + Admitted(v, es[1..] + [e], parse, cutoff);
      assert Admitted(v, es, parse, cutoff) == k0 + Admitted(v, es[1..], parse, cutoff);
      AdmittedSnoc(v, es[1..], e, parse, cutoff);
    }
  }

  /** Every kept link is at or after the cutoff, and every entry whose link
      passes is kept. */
  lemma {:induction false} AdmittedExactly(v: Version, es: seq<Entry>, parse: string -> Option<int>, cutoff: int)
    ensures forall l :: l in Admitted(v, es, parse, cutoff) ==> l.date >= cutoff
    ensures forall i :: 0 <= i < |es| && Step(v, es[i], parse, cutoff).Ok? && Step(v, es[i], parse, cutoff).value.Some? ==>
              Step(v, es[i], parse, cutoff).value.value in Admitted(v, es, parse, cutoff)
  {
    if es != [] {
      AdmittedExactly(v, es[1..], parse, cutoff);
      forall i | 0 < i < |es| ensures es[i] == es[1..][i - 1] { }
    }
  }

  /** An entry is kept exactly when it has a link, a title, and a date that
      parses to the cutoff or later. */
  lemma StepKeeps(v: Version, e: Entry, parse: string -> Option<int>, cutoff: int, l: Link)
    ensures Step(v, e, parse, cutoff) == Ok(Some(l)) <==>
      e.links.Some? && |e.links.value| > 0 && e.links.value[0] == Some(l.url)
      && e.title.Some? && EntryDate(e, parse) == Some(l.date)
      && l.date >= cutoff && l.title == e.title.value
  {
  }

  /** _tools/build_rss.py skips an entry without links whatever else it holds;
      scripts/build_rss.py crashes on it. */
  lemma LinklessEntry(e: Entry, parse: string -> Option<int>, cutoff: int)
    requires e.links.None?
    ensures Step(Tools, e, parse, cutoff) == Ok(None)
    ensures Step(Scripts, e, parse, cutoff) == Err(MissingLinks)
  {
  }

  /** An entry with a link and a title whose `published` date is present and
      non-empty is dated by it alone, whatever `updated` holds. */
  lemma StepPrefersPublished(v: Version, e: Entry, parse: string -> Option<int>, cutoff: int)
    requires e.links.Some? && |e.links.value| > 0 && e.links.value[0].Some? && e.title.Some?
    requires e.published.Some? && e.published.value != ""
    ensures parse(e.published.value).None? ==> Step(v, e, parse, cutoff) == Ok(None)
    ensures parse(e.published.value).Some? ==>
      Step(v, e, parse, cutoff)
        == if parse(e.published.value).value >= cutoff
           then Ok(Some(Link(e.links.value[0].value, e.title.value, parse(e.published.value).value)))
           else Ok(None)
  {
  }

  /** Without a usable `published` date (absent or empty) the entry falls back
      to `updated`: kept when that parses to the cutoff or later, and skipped
      without a crash when both dates are missing. */
  lemma StepFallsBackToUpdated(v: Version, e: Entry, parse: string -> Option<int>, cutoff: int)
    requires e.links.Some? && |e.links.value| > 0 && e.links.value[0].Some? && e.title.Some?
    requires e.published.None? || e.published.value == ""
    ensures e.updated.None? ==> Step(v, e, parse, cutoff) == Ok(None)
    ensures e.updated.Some? && parse(e.updated.value).Some? && parse(e.updated.value).value >= cutoff ==>
      Step(v, e, parse, cutoff) == Ok(Some(Link(e.links.value[0].value, e.title.value, parse(e.updated.value).value)))
    ensures e.updated.Some? && (parse(e.updated.value).None? || parse(e.updated.value).value < cutoff) ==>
      Step(v, e, parse, cutoff) == Ok(None)
  {
  }

  /** On feeds whose entries all carry links the two builders keep the same links. */
  lemma {:induction false} VersionsAgree(es: seq<Entry>, parse: string -> Option<int>, cutoff: int)
    requires forall i :: 0 <= i < |es| ==> es[i].links.Some?
    ensures Collected(Scripts, es, parse, cutoff) == Collected(Tools, es, parse, cutoff)
  {
    if es != [] {
      VersionsAgree(es[..|es| - 1], parse, cutoff);
    }
  }

  // ---------------------------------------------------------------- sorting

  /** Newest first; equal dates in any order. The order is on the links' dates,
      not on the links, so it is not HIndexReduction.SortedDesc. */
  ghost predicate NewestFirst(s: seq<Link>) {
    forall i, j :: 0 <= i < j < |s| ==> s[i].date >= s[j].date
  }

  /** The links that carry date d, in their order. */
  function WithDate(s: seq<Link>, d: int): (r: seq<Link>)
    ensures |r| <= |s|
  {
    if s == [] then [] else (if s[0].date == d then [s[0]] else []) + WithDate(s[1..], d)
  }

  /** Puts l in front of the first link not newer than it. Unlike
      HIndexReduction.Insert, which sorts bare scores where equal elements are
      indistinguishable, links of one date differ, so where l lands among
      them is part of what the sort promises. */
  function InsertLink(l: Link, s: seq<Link>): (r: seq<Link>)
    ensures |r| == |s| + 1
    ensures multiset(r) == multiset(s) + multiset{l}
  {
    if s == [] then [l]
    else if s[0].date <= l.date then [l] + s
    else
      assert s == [s[0]] + s[1..];
      [s[0]] + InsertLink(l, s[1..])
  }

  /** `sorted(links, key=date, reverse=True)`, which Python keeps stable. */
  function SortByDateDesc(s: seq<Link>): (r: seq<Link>)
    ensures |r| == |s|
    ensures multiset(r) == multiset(s)
  {
    if s == [] then []
    else
      assert s == [s[0]] + s[1..];
      InsertLink(s[0], SortByDateDesc(s[1..]))
  }

  lemma {:induction false} InsertLinkNewestFirst(l: Link, s: seq<Link>)
    requires NewestFirst(s)
    ensures NewestFirst(InsertLink(l, s))
  {
    if s != [] && s[0].date > l.date {
      InsertLinkNewestFirst(l, s[1..]);
      var r := InsertLink(l, s[1..]);
      forall j | 0 <= j < |r| ensures r[j].date <= s[0].date {
        assert r[j] in multiset(r);
        assert r[j] in multiset(s[1..]) + multiset{l};
        if r[j] != l {
          assert r[j] in s[1..];
          var m :| 0 <= m < |s[1..]| && s[1..][m] == r[j];
          assert s[m + 1] == r[j];
        }
      }
      var t := [s[0]] + r;
      forall p, q | 0 <= p < q < |t| ensures t[p].date >= t[q].date {
        assert t[q] == r[q - 1];
        if p > 0 {
          assert t[p] == r[p - 1];
        }
      }
      assert InsertLink(l, s) == t;
    }
  }

  lemma {:induction false} InsertLinkWithDate(l: Link, s: seq<Link>, d: int)
    ensures WithDate(InsertLink(l, s), d) == (if l.date == d then [l] else []) + WithDate(s, d)
  {
    if s == [] {
      assert WithDate([l], d) == (if l.date == d then [l] else []) + WithDate([l][1..], d);
      assert [l][1..] == [];
    } else if s[0].date <= l.date {
      var t := [l] + s;
      assert InsertLink(l, s) == t;
      assert t[0] == l && t[1..] == s;
    } else {
      var rest := InsertLink(l, s[1..]);
      assert InsertLink(l, s) == [s[0]] + rest;
      InsertLinkWithDate(l, s[1..], d);
      WithDateBehindHead(l, s, rest, d);
    }
  }

  /** The step of InsertLinkWithDate where l goes behind an older head:
      `rest` is where l went among the tail. */
  lemma WithDateBehindHead(l: Link, s: seq<Link>, rest: seq<Link>, d: int)
    requires s != [] && s[0].date > l.date
    requires WithDate(rest, d) == (if l.date == d then [l] else []) + WithDate(s[1..], d)
    ensures WithDate([s[0]] + rest, d) == (if l.date == d then [l] else []) + WithDate(s, d)
  {
    var t := [s[0]] + rest;
    var h := if s[0].date == d then [s[0]] else [];
    var lh := if l.date == d then [l] else [];
    assert t[0] == s[0] && t[1..] == rest;
    assert WithDate(t, d) == h + WithDate(rest, d);
    assert WithDate(s, d) == h + WithDate(s[1..], d);
    assert h == [] || lh == [];
    calc {
      WithDate(t, d);
      h + (lh + WithDate(s[1..], d));
      lh + (h + WithDate(s[1..], d));
    }
  }

  /** The sort puts the links newest first, and links of one date keep the
      order they were collected in. */
  lemma {:induction false} SortByDateDescSorted(s: seq<Link>)
    ensures NewestFirst(SortByDateDesc(s))
  {
    if s != [] {
      SortByDateDescSorted(s[1..]);
      InsertLinkNewestFirst(s[0], SortByDateDesc(s[1..]));
    }
  }

  lemma {:induction false} SortByDateDescStable(s: seq<Link>, d: int)
    ensures WithDate(SortByDateDesc(s), d) == WithDate(s, d)
  {
    if s != [] {
      SortByDateDescStable(s[1..], d);
      InsertLinkWithDate(s[0], SortByDateDesc(s[1..]), d);
    }
  }

  // ---------------------------------------------------------------- the page

  /** The list item each builder appends for a link; _tools/build_rss.py strips
      HTML tags from the title first. */
  function Item(v: Version, l: Link, showDate: int -> string, stripTags: string -> string): string {
    match v
    case Scripts =>
      "<li>" + showDate(l.date) + " - <a href='" + l.url + "'>" + l.title + "</a></li>\n"
    case Tools =>
      "\n            <li>\n            <span class=\"post-date\">" + showDate(l.date)
      + "</span> -\n            <a href='" + l.url + "'>" + stripTags(l.title) + "</a></li>\n\n        "
  }

  /** One block per link, in the links' order. */
  function Items(ls: seq<Link>, block: Link -> string): string {
    if ls == [] then "" else Items(ls[..|ls| - 1], block) + block(ls[|ls| - 1])
  }

  /** The page as one block per link: items of two lists side by side are the
      items of the joined list. */
  lemma {:induction false} ItemsAppend(a: seq<Link>, b: seq<Link>, block: Link -> string)
    ensures Items(a + b, block) == Items(a, block) + Items(b, block)
  {
    if b != [] {
      assert (a + b)[..|a + b| - 1] == a + b[..|b| - 1];
      assert (a + b)[|a + b| - 1] == b[|b| - 1];
      ItemsAppend(a, b[..|b| - 1], block);
    } else {
      assert a + b == a;
    }
  }

  /** The items of a list begin with its first link's block. */
  lemma ItemsCons(l: Link, ls: seq<Link>, block: Link -> string)
    ensures Items([l] + ls, block) == block(l) + Items(ls, block)
  {
    ItemsAppend([l], ls, block);
    assert [l][..0] == [];
  }

  /** The second loop of `write_html_with_updates`: the header, one item per
      link in the given order, then the footer. */
  method EmitPage(ls: seq<Link>, header: string, footer: string, block: Link -> string)
    returns (html: string)
    ensures html == header + Items(ls, block) + footer
  {
    html := header;
    for i := 0 to |ls|
      invariant html == header + Items(ls[..i], block)
    {
      assert ls[..i + 1][..i] == ls[..i];
      html := html + block(ls[i]);
    }
    assert ls[..|ls|] == ls;
    html := html + footer;
  }

  /** `write_html_with_updates`: the page is the header, one item per kept link
      newest first, and the footer; a crash in the first loop writes nothing. */
  method WriteHtmlWithUpdates(v: Version, entries: seq<Entry>, parse: string -> Option<int>, cutoff: int,
                              header: string, footer: string, showDate: int -> string, stripTags: string -> string)
    returns (r: Result<string, Crash>)
    ensures Collected(v, entries, parse, cutoff).Err? <==> r.Err?
    ensures r.Err? ==> r.error == Collected(v, entries, parse, cutoff).error
    ensures r.Ok? ==>
      r.value == header + Items(SortByDateDesc(Admitted(v, entries, parse, cutoff)), l => Item(v, l, showDate, stripTags)) + footer
  {
    var collected := CollectLinks(v, entries, parse, cutoff);
    CollectedIsAdmitted(v, entries, parse, cutoff);
    if collected.Err? {
      return Err(collected.error);
    }
    var sortedLinks := SortByDateDesc(collected.value);
    var html := EmitPage(sortedLinks, header, footer, l => Item(v, l, showDate, stripTags));
    return Ok(html);
  }
}
