/**
  The extraction logic of the scraper in gosi.go: turning a listing card's link into
  an event identifier, and turning each card of the events listing into a SportEvent
  record, in document order.

  `url.Parse` may reject a link for reasons its source alone decides; that decision is
  the parameter `urlRejects` throughout.
*/
module Gosi {
  import opened Wrappers
  import opened GoStrings
  import opened GoUrl

  /** SportEvent: the short description of one event in the listing. */
  datatype SportEvent = SportEvent(
    id: string,
    date: string,
    eventType: string,
    title: string,
    status: string)

  /**
    The strings the collector extracts from one listing card: the title link's `href`,
    the day, number and month texts of the date, the type icon's `title` attribute,
    the title link's text and the status button's text.
  */
  datatype Card = Card(
    href: string,
    day: string,
    num: string,
    month: string,
    eventType: string,
    title: string,
    status: string)

  /** Why eventID gave no identifier. */
  datatype IdError =
    | BadUrl(path: string)       // "parsing eventID string <path>"
    | BadQuery(rawQuery: string) // "parsing query <raw query>"
    | MissingEventId             // "missing event_id"

  /** The two results of eventID: the identifier and the error. */
  datatype IdResult = IdResult(id: string, err: Option<IdError>)

  const EVENT_ID_KEY := "event_id"

  /**
    The link with every `&amp;` rewritten to `&`, in one left-to-right pass: four bytes
    shorter per occurrence, and unchanged when there is none.
  */
  function NormaliseAmpersands(s: string): (r: string)
    ensures |r| == |s| - 4 * Count(s, "&amp;")
    ensures !Contains(s, "&amp;") ==> r == s
  {
    NormaliseFacts(s);
    ReplaceAll(s, "&amp;", "&")
  }

  lemma NormaliseFacts(s: string)
    ensures |ReplaceAll(s, "&amp;", "&")| == |s| - 4 * Count(s, "&amp;")
    ensures !Contains(s, "&amp;") ==> ReplaceAll(s, "&amp;", "&") == s
  {
    var pat, rep := "&amp;", "&";
    assert |pat| == 5 && |rep| == 1;
    ReplaceAllLength(s, pat, rep);
    if !Contains(s, pat) {
      ReplaceAllAbsent(s, pat, rep);
    }
  }

  /**
    eventID: the first value of `event_id` in the query of the normalised link.
    Every error leaves the identifier empty, and success never gives an empty one.
  */
  function EventId(href: string, urlRejects: string -> bool): (r: IdResult)
    ensures r.err.Some? ==> r.id == ""
    ensures r.err.None? ==> r.id != ""
  {
    var path := NormaliseAmpersands(href);
    if urlRejects(path) then IdResult("", Some(BadUrl(path)))
    else
      var raw := RawQuery(path);
      var parsed := ParseQuery(raw);
      if parsed.err.Some? then IdResult("", Some(BadQuery(raw)))
      else if Get(parsed.values, EVENT_ID_KEY) == "" then IdResult("", Some(MissingEventId))
      else IdResult(Get(parsed.values, EVENT_ID_KEY), None)
  }

  /** The values the link's query gives `event_id`, in order, read piece by piece. */
  function EventIdValues(href: string): seq<string>
  {
    Lookup(PairsOf(Segments(RawQuery(NormaliseAmpersands(href)))), EVENT_ID_KEY)
  }

  /** The link's query has a piece with a `;` or a malformed escape. */
  predicate QueryMalformed(href: string)
  {
    AnyFailing(Segments(RawQuery(NormaliseAmpersands(href))))
  }

  /**
    eventID succeeds with `v` exactly when url.Parse accepts the normalised link, its
    query is well formed, and the first `event_id` value in it is `v`, not empty.
  */
  lemma EventIdSucceeds(href: string, urlRejects: string -> bool, v: string)
    ensures EventId(href, urlRejects) == IdResult(v, None) <==>
      && !urlRejects(NormaliseAmpersands(href))
      && !QueryMalformed(href)
      && EventIdValues(href) != []
      && EventIdValues(href)[0] == v
      && v != ""
  {
    var raw := RawQuery(NormaliseAmpersands(href));
    GetBySegments(raw, EVENT_ID_KEY);
  }

  /**
    eventID reports `missing event_id` exactly when the link parses and its query is well
    formed but has no `event_id` value or an empty first one.
  */
  lemma EventIdMissing(href: string, urlRejects: string -> bool)
    ensures EventId(href, urlRejects).err == Some(MissingEventId) <==>
      && !urlRejects(NormaliseAmpersands(href))
      && !QueryMalformed(href)
      && (EventIdValues(href) == [] || EventIdValues(href)[0] == "")
  {
    var raw := RawQuery(NormaliseAmpersands(href));
    GetBySegments(raw, EVENT_ID_KEY);
  }

  /**
    The two parse errors: the link is rejected by url.Parse, or, once accepted, its query
    has a malformed piece; each error carries the text it was about.
  */
  lemma EventIdParseErrors(href: string, urlRejects: string -> bool)
    ensures var path := NormaliseAmpersands(href);
      EventId(href, urlRejects).err == Some(BadUrl(path)) <==> urlRejects(path)
    ensures var path := NormaliseAmpersands(href);
      EventId(href, urlRejects).err == Some(BadQuery(RawQuery(path))) <==>
        !urlRejects(path) && QueryMalformed(href)
  {
  }

  /** The date text: day, number and month joined by single spaces. */
  function DateOf(day: string, num: string, month: string): (d: string)
    ensures |d| == |day| + |num| + |month| + 2
    ensures d[|day|] == ' ' && d[|day| + 1 + |num|] == ' '
  {
    day + " " + num + " " + month
  }

  /** Space-free date parts are recovered by splitting the date at its spaces. */
  lemma SplitDate(day: string, num: string, month: string)
    requires ' ' !in day && ' ' !in num && ' ' !in month
    ensures Split(DateOf(day, num, month), ' ') == [day, num, month]
  {
    assert Join([day, num, month], ' ') == DateOf(day, num, month) by {
      assert [day, num, month][1..] == [num, month];
      assert [num, month][1..] == [month];
      assert Join([month], ' ') == month;
      assert Join([num, month], ' ') == num + [' '] + month;
      assert Join([day, num, month], ' ') == day + [' '] + (num + [' '] + month);
    }
    SplitJoin([day, num, month], ' ');
  }

  /**
    The record for one card. Its identifier is empty exactly when eventID fails on the
    card's link; the other fields come from the card alone.
  */
  function ToEvent(card: Card, urlRejects: string -> bool): (e: SportEvent)
    ensures e.id == "" <==> EventId(card.href, urlRejects).err.Some?
    ensures e.id != "" ==> EventId(card.href, urlRejects) == IdResult(e.id, None)
    ensures e.date == card.day + " " + card.num + " " + card.month
    ensures e.eventType == card.eventType && e.title == card.title && e.status == card.status
  {
    SportEvent(
      EventId(card.href, urlRejects).id,
      DateOf(card.day, card.num, card.month),
      card.eventType,
      card.title,
      card.status)
  }

  /** The link decides the identifier only: two cards that differ in their link alone give
      records that differ in their identifier alone. */
  lemma HrefOnlyAffectsId(card: Card, href: string, urlRejects: string -> bool)
    ensures ToEvent(card.(href := href), urlRejects) ==
      ToEvent(card, urlRejects).(id := EventId(href, urlRejects).id)
  {
  }

  /** The records for a sequence of cards, one per card, in card order. */
  function EventsOf(cards: seq<Card>, urlRejects: string -> bool): (events: seq<SportEvent>)
    ensures |events| == |cards|
  {
    if cards == [] then []
    else EventsOf(cards[..|cards| - 1], urlRejects) + [ToEvent(cards[|cards| - 1], urlRejects)]
  }

  /** One record per card, and the record at each position is that card's. */
  lemma {:induction false} EventsOfAt(cards: seq<Card>, urlRejects: string -> bool)
    ensures |EventsOf(cards, urlRejects)| == |cards|
    ensures forall i :: 0 <= i < |cards| ==> EventsOf(cards, urlRejects)[i] == ToEvent(cards[i], urlRejects)
  {
    if cards != [] {
      var init := cards[..|cards| - 1];
      var events := EventsOf(cards, urlRejects);
      EventsOfAt(init, urlRejects);
      assert events == EventsOf(init, urlRejects) + [ToEvent(cards[|cards| - 1], urlRejects)];
      forall i | 0 <= i < |cards| ensures events[i] == ToEvent(cards[i], urlRejects) {
        if i < |init| {
          assert init[i] == cards[i];
        }
      }
    }
  }

  lemma EventsOfSnoc(cards: seq<Card>, card: Card, urlRejects: string -> bool)
    ensures EventsOf(cards + [card], urlRejects) == EventsOf(cards, urlRejects) + [ToEvent(card, urlRejects)]
  {
  }

  lemma SplitLast<T>(a: seq<T>, b: seq<T>)
    requires b != []
    ensures a + b == (a + b[..|b| - 1]) + [b[|b| - 1]]
  {
    assert b == b[..|b| - 1] + [b[|b| - 1]];
  }

  /** Later cards only append records: the records of earlier cards never change or move. */
  lemma {:induction false} EventsOfAppend(cards: seq<Card>, more: seq<Card>, urlRejects: string -> bool)
    ensures EventsOf(cards + more, urlRejects) == EventsOf(cards, urlRejects) + EventsOf(more, urlRejects)
    decreases |more|
  {
    if more == [] {
      assert cards + more == cards;
    } else {
      var init, last := more[..|more| - 1], more[|more| - 1];
      var front, middle, back := EventsOf(cards, urlRejects), EventsOf(init, urlRejects), [ToEvent(last, urlRejects)];
      EventsOfAppend(cards, init, urlRejects);
      assert EventsOf(cards + more, urlRejects) == (front + middle) + back by {
        SplitLast(cards, more);
        EventsOfSnoc(cards + init, last, urlRejects);
      }
      assert EventsOf(more, urlRejects) == middle + back by {
        SplitLast([], more);
        assert [] + more == more && [] + init == init;
        EventsOfSnoc(init, last, urlRejects);
      }
      assert (front + middle) + back == front + (middle + back);
    }
  }

  /**
    CollectEvents, for the cards the collector matched on the listing page in document
    order: each card's record is appended to `events` as its callback runs.
  */
  method CollectEvents(cards: seq<Card>, urlRejects: string -> bool) returns (events: seq<SportEvent>)
    ensures events == EventsOf(cards, urlRejects)
    ensures |events| == |cards|
    ensures forall i :: 0 <= i < |cards| ==> events[i] == ToEvent(cards[i], urlRejects)
  {
    events := [];
    var i := 0;
    while i < |cards|
      invariant 0 <= i <= |cards|
      invariant events == EventsOf(cards[..i], urlRejects)
    {
      assert cards[..i + 1][..i] == cards[..i];
      events := events + [ToEvent(cards[i], urlRejects)];
      i := i + 1;
    }
    assert cards[..i] == cards;
    EventsOfAt(cards, urlRejects);
  }
}
