# translation-flashcards: the markup transform, the sentence list and the table handlers

This project models the core of a flashcard application for sentences and their translations.

- **The client store** is `src/stores/sentences.js`. Its `formatText` and `stripLinks` rewrite author markup with three global regular-expression substitutions:
  - a wiki link `[[target|caption]]` becomes `<b>caption</b>`;
  - a ruby gloss `{base|reading}` becomes `<ruby><rb>base</rb><rt>reading</rt></ruby>`;
  - bold `**x**` becomes `<b>x</b>`.
- The store's `add` and `update` send the raw form `stripLinks(input)` and the display form `formatText(raw)`. `remove` sends only the id. All three then change the in-memory `sentences` list.
- The first substitution of `formatText` uses the same pattern and template as `stripLinks`, so the model defines `FormatText` through `StripLinks`.
- **The serverless handlers** under `api/` read and write one `sentences` table:
  - `sentences.js` lists, inserts, updates and deletes rows;
  - `notes.js`, `starred.js` and `learned.js` each set one column of one row.

Modules:

- `Wrappers` (wrappers.dfy): `Option`. A missing, null or undefined value is `None`.
- `Markup` (markup.dfy): the substitutions.
  - Each pattern's quantifiers are greedy runs over negated character classes, so a match at a position is determined by the maximal runs. `MatchAt` computes it.
  - A global replace is the left-to-right scan `Replace`: rewrite a match and resume after it, or copy one character.
  - `Shaped` is a declarative reading of each pattern. It is proved equivalent to the scan in both directions.
- `Db` (db.dfy): the table as a `class Table` holding a `map` from id to row, plus the id sequence. Also the response shapes.
- `SentencesApi`, `NotesApi`, `StarredApi`, `LearnedApi`: one `Handle` method per handler, which updates the table and returns the response.
  - Each table update is also a function on the map, with lemmas about it.
  - Every handler keeps two facts about rows it does not delete (`Db.Stable`): `created_at` is never rewritten, and `learned_at` never returns to NULL.
- `SentenceStore` (sentence_store.dfy): a `class Store` whose `sentences` field is a `seq` that `Load`, `Add`, `Update` and `Remove` reassign.

Inputs the program gets from outside are parameters:

- the server's answer to a `fetch`;
- `Date.now()` and SQL `NOW()`;
- whether a statement fails, as `fault: Option<string>`. A failing statement leaves the table as it was.

Behaviour worth noting:

- The display form is `formatText(stripLinks(input))`, computed from the raw form. A link nested in a link's caption survives `stripLinks`, so the raw form can still contain a wiki link, and the second link pass rewrites it. `DisplayFromRawDiffers` exhibits both effects. When no `[[` survives `stripLinks`, the display form equals `formatText(input)` (`DisplayFromRawAgrees`).
- The `note` column is added without a default, so a row inserted by POST has a NULL note. Only `notes.js` writes `''` for a missing note.
- PUT in `sentences.js`, `starred.js` and `learned.js` answers 200 for an id that matches no row, with no row in the body. Only `notes.js` answers 404.

## Model

| member | source | states |
|---|---|---|
| Markup.Span | src/stores/sentences.js:9-11 | the greedy `[^...]*` run of a negated class: the longest prefix avoiding the excluded characters, stopped by an excluded character or the end; the callers require it non-empty, which gives the pattern's `+` |
| Markup.MatchLink | src/stores/sentences.js:9 | no contract of its own; MatchAt bounds its length, and ShapedMatches and MatchShaped state which strings it matches and what it produces |
| Markup.MatchRuby | src/stores/sentences.js:10 | no contract of its own; MatchAt bounds its length, and ShapedMatches and MatchShaped state which strings it matches and what it produces |
| Markup.MatchBold | src/stores/sentences.js:11 | no contract of its own; MatchAt bounds its length, and ShapedMatches and MatchShaped state which strings it matches and what it produces |
| Markup.Render | src/stores/sentences.js:9-11 | no contract of its own; it is the three replacement templates, and ShapedMatches and MatchShaped state that a match's output is the template filled with its groups |
| Markup.Replace | src/stores/sentences.js:9-16 | no contract of its own; ReplaceShaped, ReplaceUnshaped, ReplaceNoOccurrence, ReplacePlainPrefix and ReplaceFixed state the global replace |
| Markup.StripLinks | src/stores/sentences.js:15-17 | no contract of its own; StripLinksRewrites, StripLinksNoOpener, and ReplaceShaped and ReplaceUnshaped for the link rule, state it |
| Markup.FormatText | src/stores/sentences.js:7-12 | no contract of its own; it applies the ruby and bold passes to StripLinks, and FormatTextPlain, FormatTextUnmatched, RubyReadingKeepsBar, DisplayFromRawAgrees and DisplayFromRawDiffers state it |
| Markup.MatchAt | src/stores/sentences.js:9-11 | a match spans at least one character and no more than the input, so the scan always advances |
| Markup.ShapedMatches | src/stores/sentences.js:9-11 | an occurrence of the pattern at the front (non-empty groups avoiding their classes' characters, then the closing delimiter) is matched exactly, and its replacement is the template filled with its groups |
| Markup.MatchShaped | src/stores/sentences.js:9-11 | conversely, every match is an occurrence of the pattern, and the replacement is the template filled with that occurrence's groups |
| Markup.ReplaceShaped | src/stores/sentences.js:9-16 | a global replace rewrites an occurrence at the front and continues right after it |
| Markup.ReplaceUnshaped | src/stores/sentences.js:9-16 | with no occurrence at the front, a global replace keeps the first character and continues at the next one |
| Markup.ReplacePlainPrefix | src/stores/sentences.js:9-16 | a prefix without the pattern's opening character is copied verbatim |
| Markup.ReplaceNoOccurrence | src/stores/sentences.js:9-16 | a string in which no occurrence of the pattern starts at any position is returned unchanged, so unmatched or partial markup passes through verbatim |
| Markup.ReplaceFixed | src/stores/sentences.js:9-16 | a string lacking a character every occurrence needs is returned unchanged |
| Markup.DisplayFromRawAgrees | src/stores/sentences.js:26-35 | when stripLinks leaves no adjacent `[[`, formatText of the raw form equals formatText of the input |
| Markup.StripLinksRewrites | src/stores/sentences.js:16 | a wiki link with target t and caption l becomes `<b>l</b>` and t is discarded, where t has no bar or `]` and l has no `]`; the rest is stripped independently |
| Markup.StripLinksNoOpener | src/stores/sentences.js:16 | a string with no `[[` is returned unchanged by stripLinks |
| Markup.RubyRewrites | src/stores/sentences.js:10 | a ruby gloss with base b and reading r becomes `<ruby><rb>b</rb><rt>r</rt></ruby>`, where b excludes the bar and both braces and r excludes only the braces |
| Markup.RubyAlone | src/stores/sentences.js:10 | a string that is exactly one ruby gloss becomes exactly one ruby construct |
| Markup.BoldRewrites | src/stores/sentences.js:11 | `**x**` becomes `<b>x</b>` where x has no `*` |
| Markup.FormatTextPlain | src/stores/sentences.js:8-11 | formatText returns a string containing none of `[`, `{`, `*` unchanged |
| Markup.FormatTextUnmatched | src/stores/sentences.js:8-17 | partial markup without a bar or `*` passes through both functions unchanged |
| Markup.RubyReadingKeepsBar | src/stores/sentences.js:10 | a gloss with two bars is rendered with the text before the first bar as base and all the rest, second bar included, as reading |
| Markup.LoneMarkupVerbatim | src/stores/sentences.js:8-17 | a lone `[[` and `{a}` pass through verbatim |
| Markup.DisplayFromRawDiffers | src/stores/sentences.js:26-35 | for a link whose caption is itself a link, the raw form keeps the inner link, and the display form rendered from it differs from formatText of the input |
| SentenceStore.Prepare | src/stores/sentences.js:26-35 | no contract of its own; the four columns sent are the raw forms stripLinks(text) and stripLinks(translation) and the display forms formatText of those; Store.Add and Store.Update state this in their ensures, and PreparePlain and PrepareLink give its value on plain text and on a link |
| SentenceStore.PreparePlain | src/stores/sentences.js:26-35 | input without markup characters is sent unchanged in all four columns |
| SentenceStore.PrepareLink | src/stores/sentences.js:26-35 | a wiki link is sent as its bold caption in both the raw and the display form, without its target |
| SentenceStore.FirstIndex | src/stores/sentences.js:68 | findIndex: -1 exactly when no element has the id, otherwise the first position holding it |
| SentenceStore.Replaced | src/stores/sentences.js:68-69 | the length is kept, only the first position holding the id changes, and it changes to the answer |
| SentenceStore.ReplacedMissing | src/stores/sentences.js:68-69 | an update whose id is not in the list leaves the list unchanged |
| SentenceStore.Without | src/stores/sentences.js:74 | filter: no element has the id, and every element with another id is kept as often as it occurred; an undefined id is None and removes exactly the elements without an id |
| SentenceStore.WithoutAppend | src/stores/sentences.js:74 | the filter works on each part of a list separately, so survivors keep their relative order |
| SentenceStore.WithoutAbsent | src/stores/sentences.js:74 | removing an id that is not in the list changes nothing |
| SentenceStore.RemoveTwice | src/stores/sentences.js:74 | removing an id twice is removing it once |
| SentenceStore.RemoveUndoesAdd | src/stores/sentences.js:74 | removing the id of an item just appended gives the list that removing it before the append gives |
| SentenceStore.Store.constructor | src/stores/sentences.js:5 | the list starts empty |
| SentenceStore.Store.Load | src/stores/sentences.js:19-23 | an answer replaces the list wholesale; no answer leaves it |
| SentenceStore.Store.Add | src/stores/sentences.js:25-51 | sends raw = stripLinks(input) and display = formatText(raw) for both texts; the list grows by one, earlier elements unchanged, and the answer (or the local item with id `now` when the answer is not JSON) is last |
| SentenceStore.Store.Find | src/stores/sentences.js:68 | the loop's result is FirstIndex of the list |
| SentenceStore.Store.Update | src/stores/sentences.js:53-70 | sends the same two forms as Add; the list becomes Replaced with the answer, or stays as it was when the answer is not JSON |
| SentenceStore.Store.Remove | src/stores/sentences.js:72-75 | the list becomes Without the id |
| Db.Hits | api/sentences.js:20 | no contract of its own; `WHERE id = ${id}` selects a row exactly when the id is present and is a key of the table; TextUpdated, StarSet and LearnedSet and the handlers' answers state what a hit and a miss do |
| Db.View | api/sentences.js:12 | no contract of its own; the columns SELECT and RETURNING list, all but note; Select, Insert, UpdateText and Handle state the returned rows through it |
| Db.NotAllowed | api/sentences.js:26-28 | no contract of its own; the 405 answer with the handler's Allow list and the message `Method <verb> Not Allowed`, which each Handle's ensures names for an unserved method |
| Db.Failed | api/sentences.js:30-31 | no contract of its own; the 500 answer carrying the error message, which each Handle's ensures names when a statement fails |
| SentencesApi.Served | api/sentences.js:11-26 | no contract of its own; the four methods the handler serves; Handle's ensures answers 405 exactly when it is false |
| SentencesApi.Select | api/sentences.js:12 | every row exactly once, without its note, with created_at non-increasing |
| SentencesApi.NewRow | api/sentences.js:5-7 | no contract of its own; the inserted row is the given text fields, created_at now, learned_at NULL, starred false and note NULL; Insert and Handle state this in their ensures |
| SentencesApi.Insert | api/sentences.js:5-17 | exactly one row is added under a fresh id, with the four given text fields, created_at = now, learned_at NULL, starred false, note NULL |
| SentencesApi.TextUpdated | api/sentences.js:19-20 | only the four text columns of the row with the id change; an id matching no row changes nothing |
| SentencesApi.UpdateText | api/sentences.js:18-21 | the table becomes TextUpdated, and the answer is the updated row, or none for an unknown id |
| SentencesApi.Deleted | api/sentences.js:23-24 | the row with the id is gone and every other row is kept |
| SentencesApi.Delete | api/sentences.js:22-25 | the table becomes Deleted; an absent id changes nothing |
| SentencesApi.DeleteIdempotent | api/sentences.js:24 | deleting twice is deleting once |
| SentencesApi.Handle | api/sentences.js:9-33 | GET 200 with the listing; POST 201 with the new row; PUT 200 with the updated row or none; DELETE 204; any other method 405 with Allow GET, POST, PUT, DELETE and the table unchanged; a failing statement 500 with its message and the table unchanged |
| NotesApi.NoteSet | api/notes.js:21 | only the note of the row with the id changes, to the given note or `''` when it is missing |
| NotesApi.NoteSetLastWins | api/notes.js:21 | of two note writes the second decides the note |
| NotesApi.NoteSetNeverNull | api/notes.js:21 | a written note is never NULL, and a missing note is stored as `''` |
| NotesApi.Falsy | api/notes.js:15 | no contract of its own; `!id` for an integer id holds exactly when the id is absent or 0, and NotesApi.Handle's 400 clause states the consequence |
| NotesApi.Handle | api/notes.js:7-30 | 405 with Allow PUT for another method; 400 "Missing id" for a falsy id, 0 included; 500 on failure; 404 "Sentence not found" for an unknown id; otherwise 200 with the id and the stored note; every refusal leaves the table unchanged |
| StarredApi.StarSet | api/starred.js:10-11 | only the starred flag of the row with the id changes, to the given value |
| StarredApi.StarSetLastWins | api/starred.js:11 | setting the same value twice is setting it once, and of two writes the second decides, so true then false leaves false |
| StarredApi.StarSetUnchanged | api/starred.js:11 | setting the flag to its current value changes nothing |
| StarredApi.Handle | api/starred.js:7-20 | PUT 200 with the stored flag, or no row for an unknown id with the table unchanged; 405 with Allow PUT and the table unchanged; 500 on failure |
| LearnedApi.LearnedSet | api/learned.js:10-11 | only learned_at of the row with the id changes, to now |
| LearnedApi.LearnedSetLastWins | api/learned.js:11 | marking again moves learned_at to the later time, and learned_at never goes back to NULL |
| LearnedApi.Handle | api/learned.js:7-20 | PUT 200 with the stored time, or no row for an unknown id with the table unchanged; 405 with Allow PUT and the table unchanged; 500 on failure |

## Left out

- `fetch`, JSON encoding and decoding, and HTTP plumbing. Each round trip is a given answer: an `Item`, or `None` when the body is not JSON.
- SentenceStore.Store.Load, SentenceStore.Store.Add, SentenceStore.Store.Update, SentenceStore.Store.Remove: a `fetch` that rejects, as on a network failure, makes `load`, `add`, `update` and `remove` throw before the list changes. The methods always receive an answer and cannot express that throw.
- The async ordering of the store's calls, and concurrent requests against one row. Every operation is atomic.
- Vue/Pinia reactivity (`ref`, `defineStore`).
- `load`'s `res.ok` check. `Load` takes the list, or `None` when the answer is not ok.
- The postgres client, its SSL connection and the `ALTER TABLE ... ADD COLUMN IF NOT EXISTS` migrations. Only the column defaults they leave are modelled.
- Database transactions and errors in detail. A failing statement is the `fault` parameter and changes nothing.
- Clocks. `Date.now()` and `NOW()` are parameters, and the uniqueness of the store's fallback id `Date.now()` is not modelled.
- HTML escaping. The transform emits tags around unescaped captured text, and no safety property is stated.
- SentenceStore.Item: a parsed answer object is reduced to its `id` and its four text fields. Other properties, such as `createdAt` or an error message, are not kept.
- StarredApi.Handle: an undefined body id is not distinguished from null. Both are an absent id that matches no row and gets 200 with no row; the driver's rejection of `undefined`, a 500, is reachable only through `fault`.
- LearnedApi.Handle: an undefined body id is not distinguished from null. Both are an absent id that matches no row and gets 200 with no row; the driver's rejection of `undefined`, a 500, is reachable only through `fault`.
- SentencesApi.Handle: request ids are integers or absent. `req.query.id` is always a string: a numeric query id is modelled as the integer PostgreSQL casts it to, and a non-numeric one, which fails with 500, is not modelled. The driver's rejection of an `undefined` parameter is not modelled either; an absent id matches no row.
- NotesApi.Handle: `!id` is modelled for integer ids only (absent or 0). Falsy strings and NaN are not modelled.
- StarredApi.Handle: the body's `starred` is a boolean. A null `starred` (refused by the NOT NULL column) or an undefined one (refused by the driver), both answered 500, and a string that PostgreSQL casts to a boolean, are not modelled.
- SentencesApi.Select: rows with equal `created_at` may come in any order, as `ORDER BY created_at DESC` leaves them. The contract does not fix one tie order.
