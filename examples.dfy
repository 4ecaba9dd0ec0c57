/**
  Concrete identifier cases: an escaped ampersand, `event_id` not last, a repeated key,
  an empty value, a link without a query, and a rejected link.
*/
module GosiExamples {
  import opened Wrappers
  import opened GoStrings
  import opened GoUrl
  import opened Gosi

  lemma NormaliseNone(a: string)
    requires '&' !in a
    ensures NormaliseAmpersands(a) == a
  {
    ReplaceAllSkip(a, "", "&amp;", "&");
    assert a + "" == a;
  }

  /** One `&amp;` between ampersand-free texts becomes one `&`. */
  lemma NormaliseOnce(a: string, b: string)
    requires '&' !in a && '&' !in b
    ensures NormaliseAmpersands(a + "&amp;" + b) == a + "&" + b
  {
    assert a + "&amp;" + b == a + ("&amp;" + b);
    ReplaceAllSkip(a, "&amp;" + b, "&amp;", "&");
    ReplaceAllFront(b, "&amp;", "&");
    NormaliseNone(b);
  }

  /** The scan does not look again at what it wrote: `&amp;amp;` becomes `&amp;`, not `&`. */
  lemma NoRescan()
    ensures NormaliseAmpersands("&amp;amp;") == "&amp;"
  {
    NoRescanLink();
    NormaliseOnce("", "amp;");
  }

  lemma NoRescanLink()
    ensures "" + "&amp;" + "amp;" == "&amp;amp;" && "" + "&" + "amp;" == "&amp;"
  {
  }

  /** A query of two plainly written pairs. */
  lemma TwoPairQuery(k1: string, v1: string, k2: string, v2: string, key: string)
    requires IsPlain(k1) && IsPlain(v1) && IsPlain(k2) && IsPlain(v2)
    ensures ParseQuery((k1 + "=" + v1) + "&" + (k2 + "=" + v2)).err.None?
    ensures ValuesFor(ParseQuery((k1 + "=" + v1) + "&" + (k2 + "=" + v2)).values, key) ==
      (if k1 == key then [v1] else []) + (if k2 == key then [v2] else [])
  {
    EscapePlain(k1);
    EscapePlain(v1);
    EscapePlain(k2);
    EscapePlain(v2);
    var p1, p2 := (k1, v1), (k2, v2);
    var ps := [p1, p2];
    assert PairIsBytes(p1) && PairIsBytes(p2);
    var s1, s2 := EncodePair(p1), EncodePair(p2);
    assert s1 == k1 + "=" + v1;
    assert s2 == k2 + "=" + v2;
    var segs := EncodePairs(ps);
    assert segs == [s1, s2];
    assert segs[1..] == [s2];
    var q := Join(segs, '&');
    assert Join([s2], '&') == s2;
    assert q == s1 + "&" + s2;
    ParseEncodedQuery(ps, key);
    assert ps[1..] == [p2];
    assert Lookup([p2], key) == (if k2 == key then [v2] else []) by {
      assert [p2][1..] == [];
    }
  }

  /** Normalising `pre?k1=v1&amp;k2=v2` leaves the link `pre?k1=v1&k2=v2`, whose raw query is `k1=v1&k2=v2`. */
  lemma TwoPairLinkQuery(pre: string, k1: string, v1: string, k2: string, v2: string)
    requires '?' !in pre && '#' !in pre && '&' !in pre
    requires IsPlain(k1) && IsPlain(v1) && IsPlain(k2) && IsPlain(v2)
    ensures var q := (k1 + "=" + v1) + "&" + (k2 + "=" + v2);
      NormaliseAmpersands(pre + "?" + (k1 + "=" + v1) + "&amp;" + (k2 + "=" + v2)) == pre + "?" + q &&
      RawQuery(pre + "?" + q) == q
  {
    var a, b := pre + "?" + (k1 + "=" + v1), k2 + "=" + v2;
    var q := (k1 + "=" + v1) + "&" + b;
    assert '&' !in a && '&' !in b && '#' !in q;
    NormaliseOnce(a, b);
    assert a + "&" + b == pre + "?" + q;
    RawQueryOf(pre, q, "");
  }

  /**
    A link `pre?k1=v1&amp;k2=v2` with plainly written pairs: eventID returns the first
    `event_id` value when it is non-empty, and `missing event_id` when there is none or it
    is empty.
  */
  lemma EventIdOfTwoPairLink(pre: string, k1: string, v1: string, k2: string, v2: string,
                             urlRejects: string -> bool)
    requires '?' !in pre && '#' !in pre && '&' !in pre
    requires IsPlain(k1) && IsPlain(v1) && IsPlain(k2) && IsPlain(v2)
    requires !urlRejects(pre + "?" + ((k1 + "=" + v1) + "&" + (k2 + "=" + v2)))
    ensures var vs := (if k1 == EVENT_ID_KEY then [v1] else []) + (if k2 == EVENT_ID_KEY then [v2] else []);
      EventId(pre + "?" + (k1 + "=" + v1) + "&amp;" + (k2 + "=" + v2), urlRejects) ==
        if vs == [] || vs[0] == "" then IdResult("", Some(MissingEventId)) else IdResult(vs[0], None)
  {
    TwoPairLinkQuery(pre, k1, v1, k2, v2);
    TwoPairQuery(k1, v1, k2, v2, EVENT_ID_KEY);
  }

  lemma PlainFacts()
    ensures IsPlain("page") && IsPlain("E") && IsPlain("event_id") && IsPlain("8957")
    ensures IsPlain("") && IsPlain("1") && IsPlain("2")
    ensures "page" != EVENT_ID_KEY
  {
  }

  lemma EscapedAmpersandLink()
    ensures "index.php?page=E&event_id=8957" == "index.php" + "?" + (("page" + "=" + "E") + "&" + ("event_id" + "=" + "8957"))
    ensures "index.php?page=E&amp;event_id=8957" == "index.php" + "?" + ("page" + "=" + "E") + "&amp;" + ("event_id" + "=" + "8957")
  {
  }

  /** `index.php?page=E&amp;event_id=8957` gives `8957` with no error. */
  lemma EscapedAmpersandExample(urlRejects: string -> bool)
    requires !urlRejects("index.php?page=E&event_id=8957")
    ensures EventId("index.php?page=E&amp;event_id=8957", urlRejects) == IdResult("8957", None)
  {
    EscapedAmpersandLink();
    PlainFacts();
    EventIdOfTwoPairLink("index.php", "page", "E", "event_id", "8957", urlRejects);
  }

  lemma NotLastLink()
    ensures "index.php?event_id=8957&page=E" == "index.php" + "?" + (("event_id" + "=" + "8957") + "&" + ("page" + "=" + "E"))
    ensures "index.php?event_id=8957&amp;page=E" == "index.php" + "?" + ("event_id" + "=" + "8957") + "&amp;" + ("page" + "=" + "E")
  {
  }

  /** `event_id` need not be the last parameter: `index.php?event_id=8957&amp;page=E` gives `8957`. */
  lemma NotLastExample(urlRejects: string -> bool)
    requires !urlRejects("index.php?event_id=8957&page=E")
    ensures EventId("index.php?event_id=8957&amp;page=E", urlRejects) == IdResult("8957", None)
  {
    NotLastLink();
    PlainFacts();
    EventIdOfTwoPairLink("index.php", "event_id", "8957", "page", "E", urlRejects);
  }

  lemma RepeatedLink()
    ensures "index.php?event_id=1&event_id=2" == "index.php" + "?" + (("event_id" + "=" + "1") + "&" + ("event_id" + "=" + "2"))
    ensures "index.php?event_id=1&amp;event_id=2" == "index.php" + "?" + ("event_id" + "=" + "1") + "&amp;" + ("event_id" + "=" + "2")
  {
  }

  /** Of two `event_id` values the first wins: `index.php?event_id=1&amp;event_id=2` gives `1`. */
  lemma FirstValueExample(urlRejects: string -> bool)
    requires !urlRejects("index.php?event_id=1&event_id=2")
    ensures EventId("index.php?event_id=1&amp;event_id=2", urlRejects) == IdResult("1", None)
  {
    RepeatedLink();
    PlainFacts();
    EventIdOfTwoPairLink("index.php", "event_id", "1", "event_id", "2", urlRejects);
  }

  lemma EmptyValueLink()
    ensures "index.php?page=E&event_id=" == "index.php" + "?" + (("page" + "=" + "E") + "&" + ("event_id" + "=" + ""))
    ensures "index.php?page=E&amp;event_id=" == "index.php" + "?" + ("page" + "=" + "E") + "&amp;" + ("event_id" + "=" + "")
  {
  }

  /** A present but empty `event_id=` is reported as `missing event_id`. */
  lemma EmptyValueExample(urlRejects: string -> bool)
    requires !urlRejects("index.php?page=E&event_id=")
    ensures EventId("index.php?page=E&amp;event_id=", urlRejects) == IdResult("", Some(MissingEventId))
  {
    EmptyValueLink();
    PlainFacts();
    EventIdOfTwoPairLink("index.php", "page", "E", "event_id", "", urlRejects);
  }

  /** A link without `?`, `#` or `&` has an empty query, so eventID reports `missing event_id`. */
  lemma NoQueryLink(href: string, urlRejects: string -> bool)
    requires '?' !in href && '#' !in href && '&' !in href
    requires !urlRejects(href)
    ensures EventId(href, urlRejects) == IdResult("", Some(MissingEventId))
  {
    NormaliseNone(href);
    RawQueryAbsent(href, "");
    assert ParseQuery("") == Parsed(map[], None);
  }

  /** `foo=1`, a link without a query, is reported as `missing event_id`. */
  lemma NoQueryExample(urlRejects: string -> bool)
    requires !urlRejects("foo=1")
    ensures EventId("foo=1", urlRejects) == IdResult("", Some(MissingEventId))
  {
    NoQueryLink("foo=1", urlRejects);
  }

  /** A rejected link is reported as a parse error carrying the normalised link. */
  lemma RejectedLinkExample(urlRejects: string -> bool)
    requires urlRejects("index.php?page=E&event_id=8957")
    ensures EventId("index.php?page=E&amp;event_id=8957", urlRejects) ==
      IdResult("", Some(BadUrl("index.php?page=E&event_id=8957")))
  {
    EscapedAmpersandLink();
    PlainFacts();
    TwoPairLinkQuery("index.php", "page", "E", "event_id", "8957");
  }
}
