# gosi extraction core, modelled in Dafny

gosi scrapes the events listing of the SiEntries website. The collector finds every
event card on the listing page. For each card it builds a `SportEvent` record: identifier,
date, event type, title and status. It appends the records in document order. The
identifier comes from the card's link: `eventID` rewrites `&amp;` to `&`, parses the link
as a URL, parses its query and returns the first `event_id` value. It reports an error
when the link or the query is malformed, or when `event_id` is missing or empty.

This project models that core:

- `wrappers.dfy`, module `Wrappers`: `Option` and `Result`.
- `strings.dfy`, module `GoStrings`: the Go `strings` functions the core depends on.
  These are `IndexByte`, `Cut`, `Split`, `Join`, `Count` and a left-to-right, non-overlapping
  `ReplaceAll`.
- `url.dfy`, module `GoUrl`: the parts of Go's `net/url` that the core depends on.
  - The raw query that `url.Parse` records: the text after the first `?` and before the
    first `#` (section 3.4 of RFC 3986).
  - `url.QueryUnescape`, with `url.QueryEscape` as its inverse.
  - `url.ParseQuery`, written as Go's cut-at-`&` loop. It is proved equal to a reference
    reading that splits the query into pieces and decodes each piece on its own.
  - `url.Values` and `Values.Get`.
- `gosi.dfy`, module `Gosi`: `SportEvent`, the extracted `Card`, `EventId` (gosi.go's
  `eventID`), the per-card mapping `ToEvent`, and `CollectEvents`. `CollectEvents` is a
  method whose loop appends one record per card.
- `examples.dfy`, module `GosiExamples`: concrete identifier cases. They cover an escaped
  ampersand, `event_id` not last, a repeated key, an empty value, a link without a query,
  and a rejected link.

Modelling choices:

- Go strings are byte strings. Each `char` here stands for one byte. Percent-decoding
  yields the char whose code is the decoded byte.
- Whether `url.Parse` rejects a link is decided by code this model does not include.
  That decision is the parameter `urlRejects: string -> bool`. Every lemma holds for
  every such decision.
- The collector's CSS-selector matching is also outside the model. A `Card` holds the
  seven strings the selectors extract, and `CollectEvents` takes the matched cards in
  document order.
- The query is parsed by the rules of Go's `url.ParseQuery` (Go 1.17 and later), because that is what the
  code calls. These rules add two error cases to plain form-urlencoded splitting (split
  at `&`, cut at the first `=`, percent-decode with `+` as space). A piece that holds a
  `;` is an error. A `%` that is not followed by two hex digits is an error. Either one
  makes `eventID` report its query error.

## Model

| member | source | states |
|---|---|---|
| `Gosi.EventId` | gosi.go:85-99 | Every error comes with an empty identifier, and a success never comes with an empty one |
| `Gosi.EventIdSucceeds` | gosi.go:86-98 | `eventID` returns `v` with no error exactly when url.Parse accepts the normalised link, no piece of its query is malformed, and the first `event_id` value of the query is `v`, which is non-empty |
| `Gosi.EventIdMissing` | gosi.go:95-96 | `missing event_id` is reported exactly when link and query parse and `event_id` has no value or an empty first value |
| `Gosi.EventIdParseErrors` | gosi.go:87-93 | The link error (carrying the normalised link) occurs exactly when url.Parse rejects it; the query error (carrying the raw query) occurs exactly when the link is accepted and some query piece is malformed |
| `Gosi.ToEvent` | gosi.go:62-78 | A record's ID is empty exactly when `eventID` fails on the card's link, and is otherwise `eventID`'s value; Date is day, num and month joined by single spaces; type, title and status are copied |
| `Gosi.HrefOnlyAffectsId` | gosi.go:62-78 | Changing a card's link changes only the record's ID, so a failing link leaves the other fields as they were |
| `Gosi.SplitDate` | gosi.go:63-67 | Date parts without spaces are recovered by splitting the Date at its spaces |
| `Gosi.EventsOfAt` | gosi.go:61-79 | The listing has exactly one record per card, and the record at position i is card i's |
| `Gosi.EventsOfAppend` | gosi.go:79 | Appending cards only appends records; earlier records never change or move |
| `Gosi.CollectEvents` | gosi.go:59-83 | The loop's result is the record list of the cards: as many records as cards, each card's record in card order |
| `Gosi.NormaliseAmpersands` | gosi.go:86 | The rewritten link is 4 chars shorter per `&amp;` counted left to right, and a link with no `&amp;` is unchanged |
| `Gosi.DateOf` | gosi.go:63-67 | Date is as long as its three parts plus two separators, with a space at each join; `SplitDate` recovers the parts |
| `Gosi.EventsOf` | gosi.go:59-83 | The record list has one record per card; `EventsOfAt` and `EventsOfAppend` state which record sits where |
| `GoStrings.ReplaceAll` | gosi.go:86 | Text without the pattern's first char comes back unchanged, and a replacement no longer than the pattern never lengthens the text |
| `GoUrl.RawQuery` | gosi.go:87-91 | The raw query holds no `#` and is empty when the link has no `?`; `RawQueryOf` and `RawQueryAbsent` give it exactly |
| `GoUrl.ClassifySegment` | gosi.go:91 | A query piece is an error exactly when it holds a `;`, is skipped exactly when it is empty, and fails to decode exactly when its key or value has a `%` without two hex digits after it |
| `GoUrl.ParseQueryFrom` | gosi.go:91 | Go's loop never clears an error once recorded, and values recorded before a piece are only extended after it |
| `GoUrl.Get` | gosi.go:95-98 | `Values.Get` gives "" for a key with no values and otherwise its first value |
| `GoStrings.ReplaceAllLength` | gosi.go:86 | Replacing `&amp;` (five chars) by `&` (one) shortens the string by 4 per non-overlapping occurrence counted left to right. The lemma states this for any non-empty pattern |
| `GoStrings.CountZeroIffAbsent` | gosi.go:86 | The left-to-right count is zero exactly when the pattern occurs nowhere |
| `GoStrings.ReplaceAllAbsent` | gosi.go:86 | A string with no `&amp;` is returned unchanged |
| `GoStrings.ReplaceAllSkip` | gosi.go:86 | Text free of `&` passes through the rewrite and does not change how the rest is rewritten |
| `GoStrings.UnescapeEscapedAmpersands` | gosi.go:86 | The rewrite undoes HTML escaping of ampersands: escaping every `&` as `&amp;` and rewriting back gives the original |
| `GosiExamples.NoRescan` | gosi.go:86 | The rewrite resumes after what it wrote and does not rescan it: `&amp;amp;` becomes `&amp;` |
| `GoUrl.RawQueryOf` | gosi.go:87-91 | When the link has a `?` before any `#`, the raw query is the text between the first `?` and the first `#` |
| `GoUrl.RawQueryAbsent` | gosi.go:87-91 | When the link has no `?` before the fragment, the raw query is empty |
| `GoUrl.QueryUnescape` | gosi.go:91 | Unescaping succeeds exactly when every `%` is followed by two hex digits; the result is never longer than the input; text with no `%` and no `+` is unchanged |
| `GoUrl.UnescapeEscape` | gosi.go:91 | Unescaping inverts url.QueryEscape on every byte string |
| `GoUrl.ParseQueryFromSegments` | gosi.go:91 | Go's cut-at-`&` loop records the same values as the reference reading that splits the query into pieces, and reports an error exactly when some piece is malformed |
| `GoUrl.ParseQuery` | gosi.go:91-93 | url.ParseQuery gives each key the decoded values of its pieces in query order; it fails exactly when some piece holds a `;` or a malformed escape |
| `GoUrl.GetBySegments` | gosi.go:95-98 | `vals.Get` returns the first value given for the key, or "" when there is none |
| `GoUrl.ParseEncodedQuery` | gosi.go:91 | A query written as `&`-joined, escaped `key=value` pairs parses without error and gives each key exactly its values, in order |
| `GosiExamples.EventIdOfTwoPairLink` | gosi.go:85-99 | For a link `pre?k1=v1&amp;k2=v2` with plain pairs, `eventID` returns the first `event_id` value when it is non-empty, and `missing event_id` when there is none or it is empty |
| `GosiExamples.EscapedAmpersandExample` | gosi.go:85-99 | `index.php?page=E&amp;event_id=8957` gives `8957` and no error |
| `GosiExamples.NotLastExample` | gosi.go:91-98 | `event_id` need not be the last parameter: `index.php?event_id=8957&amp;page=E` gives `8957` |
| `GosiExamples.FirstValueExample` | gosi.go:95-98 | With two `event_id` values the first is returned |
| `GosiExamples.EmptyValueExample` | gosi.go:95-96 | A present but empty `event_id=` is reported as `missing event_id` |
| `GosiExamples.NoQueryLink` | gosi.go:95-96 | A link with no `?`, `#` or `&` that url.Parse accepts has an empty query, so it is reported as `missing event_id` |
| `GosiExamples.NoQueryExample` | gosi.go:95-96 | `foo=1`, a link with no query, gives an empty identifier and `missing event_id` |
| `GosiExamples.RejectedLinkExample` | gosi.go:87-89 | A link that url.Parse rejects gives an empty identifier and a parse error carrying the normalised link |

## Left out

- The collector set-up and the visit (`GetEvents`, gosi.go:49-55, and the registration and `c.Visit` in gosi.go:61 and 81) are left out. They are network I/O and configuration of the colly library: allowed domains, user agent and the fixed listing URL.
- CSS-selector evaluation by `ChildText` and `ChildAttr` (gosi.go:62-70) is left out. It is HTML-parsing library code. A `Card` holds its results.
- `RunCLI` (gosi.go:103-108) is left out. It only prints records to standard output.
- `SportEventInfo` (gosi.go:26-44) is left out. No code in gosi.go fills the type in, so there is no behaviour to model. Detail-page extraction is not part of this model.
- The test's HTTP server and fixture (gosi_test.go:18-30) are left out. The test's count of 468 records is one instance of `EventsOfAt`: one record per matched card. The fixture itself is not part of this model.
- The rules by which `url.Parse` rejects a link are library behaviour not visible here. They are the parameter `urlRejects`.
- The error messages of gosi.go:89, 93 and 96 are not formatted as text. They are the cases of `IdError`, and the two parse errors carry the text their message would print.
- GoStrings.ReplaceAll requires a non-empty pattern. Go's special case for an empty pattern is not modelled, because the only call site (gosi.go:86) uses `&amp;`.
- GoUrl.QueryEscape follows url.QueryEscape. It is used only to state the unescape round trip. `GoUrl.EncodePairs` does not sort keys the way `Values.Encode` does.
- The text of `url.EscapeError` and which error url.ParseQuery returns are modelled, but no lemma states them. Only whether an error occurs is proved, because gosi.go discards both and only that matters to `eventID`.
- The "lenient" identifier policy (taking the text after `event_id=`) does not appear in the shown code and is not modelled.
- Go's distinction between a nil slice and an empty slice, for a listing with no cards, is not modelled.
