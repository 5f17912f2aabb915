# EU sanctions explorer: a Dafny model of its core

The application downloads the EU financial-sanctions export and shows it as a
filterable table. It does this in four steps:

1. It reads an RSS feed and takes the URL of the XML export from the first
   entry whose first `application/xml` enclosure has a non-empty `href`.
2. It downloads that URL.
3. It turns every `sanctionEntity` element of the export into a flat record
   of eight text fields. Each field has its own default for missing parts.
4. It filters the records by country, by subject type (the offered types
   depend on the selected countries) and by a case-insensitive name search
   that applies from three characters on.

The model covers that decision logic. It proves:

- the feed scan the source performs,
- the per-field extraction rules,
- that filtering narrows the table in order and is idempotent,
- how the type options are computed and when a stale type selection is reset.

Modules, one per concern of `eu-sanctions/sanctions.py`:

- `Wrappers` (`wrappers.dfy`): `Option` and `Result`.
- `Text` (`text.dfy`): Python's `str.lower`, `str.title`, `str.strip` and
  substring search, restricted to ASCII (see "Left out").
- `Ordering` (`ordering.dfy`): Python's string order. It also defines
  `sorted()` of the distinct values as the unique strictly sorted list of
  those values.
- `Feed` (`feed.dfy`): the enclosure scan of `fetch_xml`, as a method with
  the source's nested loops and both `break`s. The method is proved equal to
  the recursive function `Resolve`, and the lemmas are about `Resolve`. The
  download is a parameter.
- `Extraction` (`extraction.dfy`): the entity tree, the record, one function
  per field and the appending loop of `lade_sanktionen`.
- `Query` (`query.dfy`): the country filter, type options, type reset and
  name search of the page script, as pure functions. `Apply` composes them.
- `App` (`app.dfy`): the loading sequence, the empty-document finding, and an
  end-to-end example with three entities.

Three points where the code's behaviour is easy to misread:

- The feed scan looks, in each entry, only at the first enclosure typed
  `application/xml`. If that enclosure's `href` is missing or empty, the rest
  of the entry is skipped and the scan moves to the next entry
  (`Feed.FirstXmlWithoutHrefSkipsEntry`). The scan returns the first XML
  enclosure of the feed whenever that enclosure has a usable `href`
  (`Feed.ResolveFirstXmlEnclosure`).
- The code maps only the code `enterprise` to "Entity". Title-casing already
  turns `entity` in any case into "Entity", so both codes give "Entity", and
  no other code does (`Extraction.SubjectLabelRules`).
- A missing reference number gives "Unbekannt", not the empty string.

## Model

| member | source | states |
|---|---|---|
| `Feed.FirstXml` | eu-sanctions/sanctions.py:26-29 | gives the index of an `application/xml` enclosure with no such enclosure before it, or nothing exactly when no enclosure has that type |
| `Feed.ResolveXmlUrl` | eu-sanctions/sanctions.py:23-33 | the nested loops with both `break`s and the final emptiness check return exactly `Resolve(feed)` |
| `Feed.EntryUrlAt` | eu-sanctions/sanctions.py:26-31 | an entry contributes URL `u` exactly when its first XML enclosure has `href` `u` and `u` is not empty |
| `Feed.ResolveFirstContributing` | eu-sanctions/sanctions.py:25-31 | the first entry that contributes a URL decides the result, whatever the later entries hold |
| `Feed.ResolveSound` | eu-sanctions/sanctions.py:24-33 | a returned URL comes from an entry that no earlier entry beats; the only failure is "no XML link" |
| `Feed.ResolveFailsIff` | eu-sanctions/sanctions.py:32-33 | the scan fails exactly when no entry contributes a URL |
| `Feed.ResolvedUrlIsXmlHref` | eu-sanctions/sanctions.py:27-33 | a returned URL is non-empty and is the `href` of an `application/xml` enclosure of the feed |
| `Feed.ResolveFirstXmlEnclosure` | eu-sanctions/sanctions.py:24-31 | if the first XML enclosure of the feed (entries, then enclosures, in order) has a usable `href`, the result is that `href`, whatever later enclosures hold |
| `Feed.ResolveWithoutXml` | eu-sanctions/sanctions.py:32-33 | a feed with no XML enclosure gives the "no XML link" error, never a URL |
| `Feed.FirstXmlWithoutHrefSkipsEntry` | eu-sanctions/sanctions.py:28-31 | an entry whose first XML enclosure has no `href` is dropped as a whole, even if a later XML enclosure has one |
| `Feed.FetchXml` | eu-sanctions/sanctions.py:18-39 | no URL: the "no XML link" error, whatever `download` would return; otherwise the downloaded bytes, or the download error wrapped |
| `Text.LowerOfTitle` | eu-sanctions/sanctions.py:58 | title-casing keeps the length and changes only case: the lower-cased forms are equal |
| `Text.TitleIgnoresCase` | eu-sanctions/sanctions.py:58 | two codes that are equal ignoring case have the same title form |
| `Text.TitleIdempotent` | eu-sanctions/sanctions.py:79 | title-casing twice is title-casing once |
| `Text.StripShape` | eu-sanctions/sanctions.py:77 | `strip()` gives the slice between leading and trailing whitespace, with no whitespace at either end |
| `Text.StripEmptyIff` | eu-sanctions/sanctions.py:77-78 | the stripped text is empty exactly when the text is all whitespace |
| `Text.SubstringAt` | eu-sanctions/sanctions.py:174 | the substring test holds exactly when the search text occurs at some index of the name |
| `Ordering.BelowTransitive` | eu-sanctions/sanctions.py:146 | Python's string order is transitive |
| `Ordering.BelowTotal` | eu-sanctions/sanctions.py:146 | any two different strings are ordered one way or the other |
| `Ordering.Insert` | eu-sanctions/sanctions.py:146-149 | inserting into a strictly sorted list keeps it strictly sorted and adds just that value |
| `Ordering.SortedDistinct` | eu-sanctions/sanctions.py:146-149 | `sorted(unique(xs))` is strictly sorted and holds exactly the values of `xs` |
| `Ordering.SortedUnique` | eu-sanctions/sanctions.py:146-149 | two strictly sorted lists with the same values are equal, so the options do not depend on row order |
| `Extraction.LadeSanktionen` | eu-sanctions/sanctions.py:47-90 | exactly one record per entity, in document order; record `i` is the record of entity `i`, and no entity is dropped |
| `Extraction.LowerWords` | eu-sanctions/sanctions.py:58 | "Person" and "person" lower-case to "person", "Entity" and "entity" to "entity", "Unbekannt" to "unbekannt": the forms the label rule compares with |
| `Extraction.TitleWords` | eu-sanctions/sanctions.py:58 | "person" and "entity" title-case to "Person" and "Entity", and "Unbekannt" is its own title form |
| `Extraction.SubjectLabelRules` | eu-sanctions/sanctions.py:56-58 | label "Person" iff the code is "person" ignoring case; "Entity" iff it is "enterprise" or "entity" ignoring case; otherwise the title-cased code; always in title case |
| `Extraction.SubjectTypeMissing` | eu-sanctions/sanctions.py:56-57 | a missing `subjectType` element or `code` attribute gives "Unbekannt" |
| `Extraction.CountryRules` | eu-sanctions/sanctions.py:73-79 | the country is never empty, is title-cased and stripped; a first address with a non-blank description gives that description, stripped, up to case; a missing address or a blank description gives "Unbekannt"; a result other than "Unbekannt" comes from a non-blank description |
| `Extraction.PublicationUrlRules` | eu-sanctions/sanctions.py:66-71 | the URL has no surrounding whitespace; it is the stripped text of the first regulation's first `publicationUrl` when that text is present and not empty, and "" otherwise |
| `Extraction.SimpleFieldRules` | eu-sanctions/sanctions.py:50-68 | reference, name, remark, date and programme come from the first element of their kind when it and its attribute or text exist, otherwise their defaults; appending later aliases or regulations changes none of them |
| `Extraction.EmptyEntityRecord` | eu-sanctions/sanctions.py:49-90 | an entity with no attributes and no children still gives a full record of defaults |
| `Query.Filter` | eu-sanctions/sanctions.py:168 | a row is kept exactly when it is in the table and passes the condition; never more rows than before |
| `Query.FilterSubsequence` | eu-sanctions/sanctions.py:166-174 | a filtered table is an order-preserving subsequence of the table |
| `Query.FilterKeepsAll` | eu-sanctions/sanctions.py:166-174 | a filter that every row passes returns the table unchanged |
| `Query.FilterIdempotent` | eu-sanctions/sanctions.py:166-174 | filtering twice with one condition is filtering once |
| `Query.FilterThenFilter` | eu-sanctions/sanctions.py:166-174 | filtering in sequence is filtering on the conjunction |
| `Query.CountryOptionsRule` | eu-sanctions/sanctions.py:136-140 | the country options are strictly sorted and are exactly the countries of the table |
| `Query.TypeOptionsRule` | eu-sanctions/sanctions.py:146-151 | the options are "Alle", then exactly the distinct types among the rows of the selected countries (all rows if none is selected), strictly sorted |
| `Query.ChooseTypeRule` | eu-sanctions/sanctions.py:151-156 | an offered type is kept with no warning; one not offered becomes "Alle" with the warning naming it; the type in force is always an option |
| `Query.ApplyRows` | eu-sanctions/sanctions.py:165-176 | the rows shown are one filter of the table on the conjunction of the active filters, in table order; a row is shown iff it passes all of them |
| `Query.ShortSearchInert` | eu-sanctions/sanctions.py:172-176 | a search text shorter than 3 characters filters nothing; the advisory shows exactly for 1 or 2 characters |
| `Query.ApplyRowsIdempotent` | eu-sanctions/sanctions.py:146-176 | applying the same selection to the rows it produced gives the same rows |
| `App.FrameAsWritten` | eu-sanctions/sanctions.py:92-93 | as written: no records give a KeyError on the `Land` column; otherwise the records unchanged |
| `App.NoDataUnreachableAsWritten` | eu-sanctions/sanctions.py:92-110 | as written, the "Keine Daten geladen." stop can never happen; an empty document fails with the KeyError instead |
| `App.Frame` | eu-sanctions/sanctions.py:109-110 | corrected: an empty table gives the "no data" stop, any other table passes unchanged |
| `App.LoadAsWritten` | eu-sanctions/sanctions.py:92-110 | as written: each failing stage stops with its own error, an empty document with the KeyError on `Land`, never with "no data"; otherwise one record per entity in document order |
| `App.Load` | eu-sanctions/sanctions.py:101-110 | corrected (via `App.Frame`): each failing stage (feed, download, parse, empty table) stops with its own error; otherwise one record per entity in document order, never empty |
| `App.ThreeEntityScenario` | eu-sanctions/sanctions.py:49-90 | worked example: person/"germany", enterprise without address, entity without alias give "Person"/"Germany"/"", "Entity"/"Unbekannt", name "Unbekannt"; the "Germany" filter keeps only the first |

## Findings

| source | as written | input that shows it | evidently intended | confidence | as-written member | corrected member |
|---|---|---|---|---|---|---|
| eu-sanctions/sanctions.py:92-93 | `pd.DataFrame([])` has no columns, so `df['Land']` raises a KeyError before the emptiness check at lines 109-110 | an export with no `sanctionEntity` element | the empty table reaches line 109 and "Keine Daten geladen." is shown | not executed; high | `App.LoadAsWritten` | `App.Load` |

## Left out

- The HTTP download (the shared session, the 10-second timeout, `raise_for_status`) is the `download` parameter of `Feed.FetchXml`. Its failure carries the exception text.
- `feedparser.parse` is not modelled: the already parsed entries are the input. A feed that cannot be read gives no entries, so it fails as "no XML link".
- `ET.parse` and the namespaced `findall` are the `parse` parameter of `App.Load`. The entity trees it returns hold only elements of the export's namespace. The source does not catch a parse failure; the model returns `ParseFailed` for it.
- The `st.cache_data` caching with its seven-day lifetime, keyed by the feed URL: a cached call returns the data of an earlier download, so a later change of the export is not seen for up to seven days. The model describes a single uncached call; the cache and the clock are left out.
- The Streamlit page is not modelled: title, overview metrics and their number formatting (lines 112-120), session-state defaults and the reset button (lines 122-131), the widgets and the select-box index (lines 157-163), the order in which warnings are displayed, the renumbering of rows (lines 184-187) and the CSV export (lines 191-193).
- `Query.NameSearch` treats the search text literally. pandas `str.contains` reads it as a regular expression (its default), so metacharacters such as `.` or `(` behave differently there.
- `Text.Lower`, `Text.Title`, `Text.Strip`: Python's algorithms restricted to ASCII. Other characters are uncased, map to themselves and are not whitespace, so `"münchen".title()` comes out as `"MüNchen"` here, not `"München"`.
- Pagination is not part of this source file; the page shows the whole filtered table.
