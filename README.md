# cardscience in Dafny

This is a model of the two core pieces of cardscience, together with proofs
about them.

The first piece is the card scraper of `cardscience.js`. It turns each row of a
Gatherer search-results page into a `card` document:

- It reads the icons of the row's mana cost into a map from colour to count.
- It looks the card up under the id `"mtg_card_" + multiverse id`.
- It destroys the card if it is there, then saves a new one.

Rows are handled one after another, and the first row that fails ends the page
with an exception. After a page whose rows all went through, the scraper fetches
the next page while the paging control ends in a link.

The second piece is the small ActiveRecord-style layer of `lib/models/base.js`.
It keeps a registry of models over one CouchDB database. Each model has:

- its views: the built-in `all` view plus the configured ones;
- wrappers that query those views;
- a design document built by substituting the model name for `$MODEL_NAME`;
- `find`.

Its instances are mutable hashes with `save`, `destroy`, `clear`, `update` and
`deepUpdate`. `updateAllDesignDocuments` installs every model's design document
in turn and stops at the first failure.

Modules:

- `Wrappers` holds `Option`.
- `JsonDoc` holds JSON values, documents and the few JavaScript coercions used.
- `DocStore` models the database as the model layer sees it. It is a class
  `CouchDb` over a map from key to document, a revision clock and a request log.
- `ManaCost` is the mana-cost parser.
- `ViewDefs` holds the value-level parts of `base.js`: view merging, text
  substitution, design documents and option normalisation.
- `Base` holds the classes `Registry`, `Model` and `Instance`, together with
  the functions that specify their methods.
- `Scraper` holds the row pipeline, the page loop and the crawl.

Every method that changes state is tied to a function on values. A store
request or a whole operation states `ensures (State(), r) == Step(old(State()), ...)`.
`Instance.Clear`, `Instance.Update` and `Instance.DeepUpdate` state
`fields == F(old(fields))`. The properties are proved as lemmas about those
functions.

Whatever the network or the browser decides becomes a parameter:

- whether a request fails (`fault`, `faults(n)`, `RowEnv`);
- the id a POST is given (`uuid`);
- the rows a view returns;
- the pages of the site.

Where the code departs from what it evidently means, the model has both sides.
`Scraper.RowAsWritten`, `Scraper.CardFieldsAsWritten` and
`Scraper.ScrapeAsWritten` follow the code. `Scraper.Upsert`,
`Scraper.ProcessRow`, `Scraper.CardFields` and `Scraper.Scrape` follow the
evident intent (findings 1, 2 and 4 below). The source's own text shows what
was meant:

- The comment in the lookup's error callback (cardscience.js:201) says a
  missing card is made there. `find` documents that a missing instance is
  passed to `success` as nil (lib/models/base.js:287-291), and does so
  (lib/models/base.js:296-297). The success callback then destroys it, so the
  code crashes (finding 1).
- A failed lookup, which is what does reach that callback, creates the card,
  provided the logging call before it returns (see "## Left out"). Here the
  intended pipeline keeps the code's behaviour (`Scraper.Upsert`).
- The last page calls `success()` (cardscience.js:215), but the crawl is
  started without one (cardscience.js:223), so it throws (finding 4).

## Model

| member | source | states |
|---|---|---|
| JsonDoc.LowerChar | cardscience.js:149 | `toLowerCase` on one character, for ASCII letters: a capital moves to its small letter, any other character is kept |
| JsonDoc.Lower | cardscience.js:149 | `toLowerCase` keeps the length and maps every character independently |
| JsonDoc.DigitsValue | cardscience.js:155 | `Number(alt)` of a digit string: the empty string is 0 and one digit is its value |
| JsonDoc.DigitsValueAppend | cardscience.js:155 | `Number` of a digit string with one more digit is ten times the old value plus that digit |
| JsonDoc.LowerIdempotent | cardscience.js:149 | lower-casing twice is lower-casing once |
| JsonDoc.LowerDigitText | cardscience.js:147-149 | a label is numeric exactly when its lower-cased form is |
| JsonDoc.LowerKeepsDigits | cardscience.js:147-149 | lower-casing leaves a numeric label unchanged |
| ManaCost.ParseManaCost | cardscience.js:146-159 | the `forEach` over the icons, updating one map, computes exactly the tally `ManaCost(alts)` |
| ManaCost.AddColourless | cardscience.js:154-157 | `colourless` is set to its old count or 0, then raised by N one pip at a time: the result is the old count + N |
| ManaCost.TallyCount | cardscience.js:146-159 | one label changes only its own key's count, by its weight, and adds that key |
| ManaCost.ManaCostCounts | cardscience.js:146-159 | every key's count is the sum of the labels' contributions, and a key is present exactly when some label maps to it |
| ManaCost.ColourAddsOne | cardscience.js:147-151 | a non-numeric label adds exactly 1 under its lower-cased text |
| ManaCost.NumberAddsColourless | cardscience.js:152-157 | a numeric label N adds exactly N under `colourless`, and the key exists afterwards even for N = 0 |
| ManaCost.ManaCostOrderFree | cardscience.js:146-159 | any permutation of the labels gives the same map |
| ManaCost.LowerSameTally | cardscience.js:147-151 | two labels with the same lower-cased text ("Red", "red") change the map identically |
| ManaCost.ManaCostCaseInsensitive | cardscience.js:147-151 | label lists equal up to case give equal maps |
| ManaCost.ManaCostTotal | cardscience.js:146-159 | the counts sum to the number of colour labels plus the sum of the numeric labels |
| ManaCost.ManaCostExamples | cardscience.js:146-159 | ["2"] gives {colourless: 2}, ["Red","Red"] gives {red: 2}, ["Red","2"] gives {red: 1, colourless: 2}, [] gives {}, ["0"] gives {colourless: 0}, ["10"] gives {colourless: 10} |
| DocStore.GetAfterSave | lib/models/base.js:79-88 | a successful save is stored under the given key, or under the POST id, with a non-null revision; reading it back gives the stamped document; other keys are untouched |
| DocStore.GetAfterRemove | lib/models/base.js:96-102 | a successful remove needed a present key; afterwards the key reads as `not_found` and only it is gone |
| DocStore.CouchDb.Get | lib/models/base.js:294 | the store's `get` changes the store exactly as `GetStep` says and returns its reply |
| DocStore.CouchDb.Save | lib/models/base.js:79 | the store's `save` changes the store exactly as `SaveStep` says: fault, POST conflict, revision mismatch, or a stamped write |
| DocStore.CouchDb.Remove | lib/models/base.js:96 | the store's `remove` deletes exactly the given present key, or fails as `not_found` |
| DocStore.CouchDb.View | lib/models/base.js:231 | a view query only appends the request to the log and passes the rows on |
| ViewDefs.Names | lib/models/base.js:186-202 | the names of an object of views, in enumeration order |
| ViewDefs.FindNames | lib/models/base.js:186-202 | a view can be looked up exactly when its name is among the object's names |
| ViewDefs.AssignFind | lib/models/base.js:199 | `localviews[name] = v` sets that one property and keeps every other |
| ViewDefs.AssignNames | lib/models/base.js:199 | an existing name keeps its place; a new one is enumerated last |
| ViewDefs.AssignSpec | lib/models/base.js:199 | assignment sets one property, keeps the others and keeps the names distinct |
| ViewDefs.MergeIntoSpec | lib/models/base.js:196-202 | after merging, each configured name holds its configured view and every other keeps its own; existing names keep their order |
| ViewDefs.MergeViewsSpec | lib/models/base.js:186-202 | `localviews` is `all` first plus every configured view, a configured `all` replaces the built-in, and names are distinct |
| ViewDefs.ViewPathInjective | lib/models/base.js:231 | the intended query path `<plural>/<view>`: different views of a model go to different paths |
| ViewDefs.WrappersShareLastName | lib/models/base.js:219-231 | as written, with one configured view `byName`, the `all` wrapper queries `<plural>/byName` |
| ViewDefs.ReplaceAllSkips | lib/models/base.js:257-260 | the global replace passes text without the pattern's first character through unchanged |
| ViewDefs.ReplaceAllNoMatch | lib/models/base.js:257-260 | text without the pattern's first character comes back as it is |
| ViewDefs.ReplaceAllKeepsNonPrefix | lib/models/base.js:257-260 | a replacement cannot create a given prefix that neither the pattern nor the replacement starts |
| ViewDefs.ReplaceAllIdempotent | lib/models/base.js:257-260 | replacing again after a replacement changes nothing, when the replacement cannot form the pattern |
| ViewDefs.SubstituteViews | lib/models/base.js:254-267 | the substitution loop keeps every view's name and place and rewrites each view alone |
| ViewDefs.NoPatternLeft | lib/models/base.js:257-260 | after the global replace no occurrence of the pattern is left anywhere in the text, when the replacement cannot help form one |
| ViewDefs.SubstitutedHasNoPlaceholder | lib/models/base.js:256-265 | for a model name without `$`, the substituted map and any rebuilt reduce hold no `$MODEL_NAME` at all, however many placeholders or other `$` the view had |
| ViewDefs.ReplaceInTemplate | lib/models/base.js:257-260 | one placeholder between texts free of `$` is replaced and nothing else |
| ViewDefs.AllViewSubstituted | lib/models/base.js:186-194 | the substituted built-in view selects documents whose `type` is the quoted model name, and has no reduce |
| ViewDefs.SubstituteViewIdempotent | lib/models/base.js:258-265 | substituting a view twice is substituting it once, for a name without `$` |
| ViewDefs.SubstituteViewsIdempotent | lib/models/base.js:254-267 | installing the design document again sends the same views |
| ViewDefs.ReduceCopiesMap | lib/models/base.js:262-265 | a defined reduce becomes the substituted map text (or "undefined" without a map), not its own configured text |
| ViewDefs.DesignDocViews | lib/models/base.js:269 | the design document holds exactly the model's views, each as its map and reduce text |
| ViewDefs.NormalizeOptions | lib/models/base.js:226-230 | `undefined` becomes `{}`, a number or string x becomes `{key: x}`, an object passes through |
| ViewDefs.KeySugar | lib/models/base.js:228-229 | `view(x)` and `view({key: x})` send the same options |
| ViewDefs.NormalizeOptionsIdempotent | lib/models/base.js:226-230 | normalised options are already normal |
| Base.SaveSpec | lib/models/base.js:65-89 | save writes the own fields with `type` set, under `_id` or a fresh POST id, passing `_rev`. It succeeds exactly when there is no fault, no POST conflict and no revision mismatch. On success `_id`/`_rev` come from the reply; on error the instance and the documents are unchanged |
| Base.ClassifyFind | lib/models/base.js:295-316 | `not_found` is success without an instance; another error is an error; no `_id` throws; another `type` is an error; otherwise the document is found, each case if and only if |
| Base.SaveThenFind | lib/models/base.js:293-318 | what a successful save wrote is found under its key, equal to the saved fields with `type` |
| Base.FindChecksType | lib/models/base.js:311-312 | a document saved by one model is an error for a model of another name |
| Base.DestroySpec | lib/models/base.js:95-103 | destroy removes the key in `id`; it succeeds exactly when there is no fault and that key is present, and otherwise leaves the documents alone |
| Base.DestroyNeedsId | lib/models/base.js:96 | an instance without `id` (its key only in `_id`) is never removed |
| Base.ClearFields | lib/models/base.js:108-114 | exactly `_id` and `_rev` survive, with their values |
| Base.ClearIdempotent | lib/models/base.js:108-114 | clearing twice is clearing once |
| Base.UpdateFields | lib/models/base.js:122-131 | every key of the hash holds the hash's value (including `_id`); every other field is unchanged |
| Base.DeepMerge | lib/models/base.js:142-159 | the merge has the keys of both sides, and fields absent from the source are untouched |
| Base.DeepMergeFields | lib/models/base.js:145-157 | an object merges into the target's object, or is copied into a fresh `{}` when the field is absent; any other value replaces the field |
| Base.DeepMergeFlat | lib/models/base.js:142-159 | without nested objects, `deepUpdate` is `update` |
| Base.DeepMergeIntoEmpty | lib/models/base.js:145-157 | merging into an empty target copies the source |
| Base.MergeFieldIdempotent | lib/models/base.js:149-151 | merging one field twice is merging it once |
| Base.DeepMergeIdempotent | lib/models/base.js:142-159 | `deepUpdate` with the same hash twice is once |
| Base.DeepMergeObjectExample | lib/models/base.js:142-159 | {a:{c:2}} into {a:{b:1}} gives {a:{b:1,c:2}} |
| Base.DeepMergeArrayExample | lib/models/base.js:142-159 | {a:[9]} into {a:[1,2]} gives {a:[9]} |
| Base.InstallStep | lib/models/base.js:271-279 | a design-document save succeeds exactly without a fault, logs one save under `_design/<plural>`, and overwrites that key with the stamped document |
| Base.Attempts | lib/models/base.js:324-339 | the installer sends at most one save per model; all but the last sent succeeded, and if it stopped early the last one failed |
| Base.SaveOps | lib/models/base.js:332 | one save request per planned model, in plan order |
| Base.InstallAllOk | lib/models/base.js:324-339 | `done` is reached exactly when no save failed |
| Base.InstallAllLog | lib/models/base.js:324-339 | the log gains one save per attempted model in plan order, and none after the first failure |
| Base.InstallAllKeeps | lib/models/base.js:324-339 | installing never deletes a stored key |
| Base.InstallAllFrame | lib/models/base.js:324-339 | keys the installer did not reach keep their documents |
| Base.InstallAllStores | lib/models/base.js:324-339 | after a success every planned key holds a document |
| Base.PlanOfOrder | lib/models/base.js:325-331 | popping from a copy installs the last-registered model first, and every model once |
| Base.Registry.constructor | lib/models/base.js:8-10 | no store and no registered models |
| Base.Registry.Init | lib/models/base.js:29-31 | `init` sets the store and keeps the models |
| Base.Registry.Register | lib/models/base.js:341-343 | `register` appends the new model, built from its configuration, and keeps the registry well formed |
| Base.Registry.UpdateAllDesignDocuments | lib/models/base.js:324-339 | the store and the result are exactly those of the installer over the models popped from the end. The registry list is unchanged, and exactly the attempted models have their views substituted |
| Base.Registry.DoNext | lib/models/base.js:326-337 | `doNext` over the models still to go: install the last one, then go on with the rest only on success |
| Base.Model.constructor | lib/models/base.js:186-202 | the new model has the plural name, and `localviews` built from the configuration |
| Base.Model.NewInstance | lib/models/base.js:170-175 | an instance of this model whose fields are the given hash, or `{}` without one (a fresh object holding a copy; see "## Left out") |
| Base.Model.Query | lib/models/base.js:224-240 | one query to `<plural>/<view>` with the normalised options; an error is passed on, and otherwise every row becomes a new instance, in order |
| Base.Model.UpdateDesignDocuments | lib/models/base.js:246-280 | the views are rewritten in place to their substituted form, then saved as `_design/<plural>`, as `InstallStep` says |
| Base.Model.Find | lib/models/base.js:293-318 | one `get`, classified; a new instance exactly when the document was found, over that document |
| Base.Instance.Save | lib/models/base.js:65-89 | the store and the instance afterwards are exactly those of `SaveSpec` |
| Base.Instance.Destroy | lib/models/base.js:95-103 | the store and the result are exactly those of `DestroySpec`; the instance is untouched |
| Base.Instance.Clear | lib/models/base.js:108-114 | the fields become `ClearFields` of the old ones |
| Base.Instance.Update | lib/models/base.js:122-131 | the fields become `UpdateFields`, and the warning fires exactly when the hash has `_id` |
| Base.Instance.DeepUpdate | lib/models/base.js:142-159 | the fields become the deep merge of the hash into the old ones |
| Base.CopyFields | lib/models/base.js:66-71 | the copy loop yields exactly the own fields |
| Base.MergeObject | lib/models/base.js:145-157 | the recursive loop of `deepUpdate` computes exactly `DeepMerge` |
| Scraper.CardIdInjective | cardscience.js:170 | the card id is never empty, and equal card ids come exactly from equal multiverse ids |
| Scraper.AbsentThrowsAsWritten | cardscience.js:190-192 | as written, a card missing from the store makes the row throw after its `get`, with nothing written |
| Scraper.EmptyStoreThrowsAsWritten | cardscience.js:190-192 | as written, the first row scraped into an empty store throws |
| Scraper.CardLostAsWritten | cardscience.js:168-188 | as written, a created card is POSTed under the store's fresh id, and nothing appears under the id it is looked up by |
| Scraper.CardDocSlot | cardscience.js:168-174 | a stored card leaves its id's slot findable and destroyable |
| Scraper.UpsertNoFaults | cardscience.js:179-203 | without faults the intended row finishes and replaces what its id held by the card, with one new revision; nothing else changes |
| Scraper.UpsertIdempotent | cardscience.js:179-203 | handling the same row twice leaves the same documents as once, up to the card's revision |
| Scraper.UpsertFoundOrder | cardscience.js:190-199 | a found card is destroyed before any save; a failed destroy ends the row in error with no save |
| Scraper.UpsertNotFoundOrder | cardscience.js:200-203 | without a found card the row saves at once, and finishes exactly when the save has no fault; a document without `_id` throws before any write |
| Scraper.UpsertDoneFindable | cardscience.js:168-188 | a finished row has stored the card, mana-cost map included, where `find` looks for it |
| Scraper.CreateCard | cardscience.js:179-188 | `createCard` changes the store and reports as `CreateSpec` says: done exactly when the save succeeds |
| Scraper.ProcessRow | cardscience.js:146-203 | one row, with the cost parsed, the card built, looked up, destroyed and created, changes the store and ends as `Upsert` says |
| Scraper.EachWaitFailFast | cardscience.js:79 | the rows after one that fails are never handled |
| Scraper.EachWaitConcat | cardscience.js:79 | after rows that all finish, the next rows start from the store they left, at the next index |
| Scraper.EachWaitDone | cardscience.js:79 | a page's rows end in `done` exactly when each finished in turn; otherwise the result is that of the first failing row after a finished prefix |
| Scraper.ProcessRows | cardscience.js:79 | the loop over the rows changes the store and ends exactly as `EachWait` says |
| Scraper.CrawlConsecutive | cardscience.js:204-216 | pages run consecutively from the first, each fetched; the crawl moves on only past a page ending in a link, and finishes only after one that does not |
| Scraper.CrawlStep | cardscience.js:204-216 | after a page whose rows all finish, page pageNo+1 is requested exactly when the paging control ends in a link; otherwise the crawl ends there, with `success` when one was passed |
| Scraper.SlotsAfterWrite | cardscience.js:168-174 | writing one card's id leaves every other card's slot as it was, since card ids are injective |
| Scraper.UpsertKeepsSlots | cardscience.js:179-203 | a fault-free row finishes and keeps every card's slot findable and destroyable |
| Scraper.EachWaitNoFaults | cardscience.js:79 | without faults every row of a page finishes, and the next page meets usable slots |
| Scraper.CrawlRowFails | cardscience.js:217-219 | a page with a row that does not finish ends the crawl with that page and an exception: no later page is fetched, whatever the paging control says |
| Scraper.CrawlFinishes | cardscience.js:38-223 | with `success`: a fault-free site whose pages are all present, each but the last ending in a link and the last not, is visited page by page from pageNo to the end, and the crawl finishes |
| Scraper.SuccessOnlyEnds | cardscience.js:213-216 | the `success` callback changes only how the crawl ends; without it the crawl always throws |
| Scraper.ScrapeAsWrittenThrows | cardscience.js:223 | as started, `scrapePage(0)` without callbacks never finishes |
| Scraper.ScrapeOnePage | cardscience.js:204-216 | a fault-free site of one page without a link onward finishes after page 0 |
| Scraper.ScrapePage | cardscience.js:38-221 | `scrapePage` changes the store, visits pages and ends exactly as `CrawlSpec` says |
| Scraper.Scrape | cardscience.js:223 | the corrected start from page 0, with a `success` callback |

## Left out

- The browser (zombie), `url.format`/`url.parse` and every `querySelector` call: these are I/O. A page is given as its rows and the tag name of the paging control's last child.
- `verifyElements`: it only guards against elements missing from the page, and the rows are given whole.
- The cradle connection, `db.exists`/`db.create`, option parsing with nomnom, the install mode and `process.exit`: process and network plumbing.
- The cradle driver itself is modelled by its contract (`DocStore`). Its write-through cache and real UUIDs are not modelled. The revision look-up before a PUT without `_rev` is modelled by its effect: such a PUT replaces the stored document. Faults and POST ids are parameters.
- `eachWait`, `Number.prototype.times` and `putil.pluralize` live in `lib/util`, which is not part of this model:
  - `eachWait` is modelled by its evident meaning, a sequential fail-fast loop;
  - `times` is modelled as N iterations;
  - `pluralize` is a function parameter of `Registry`.
- Logging, `console.log` and `handleViewError` message formatting.
- Scraper.Upsert: a store error other than `not_found` is taken to reach `find`'s `error` callback, and so to create the card. This assumes the call `log(c, ...)` at lib/models/base.js:299 returns normally. It is the only place the logging module (lib/logging, not part of this model) is called as a function rather than through `log.debug`, `log.error` or `log.warn`. If that export is not callable, the failed lookup throws a TypeError before `error()` at line 300, and the row throws instead (`RowThrew`).
- JavaScript evaluation: a view's map and reduce are source text. The built-in `all` view is a one-line rendering of lib/models/base.js:188-192, not the exact text `String(f)` would give. Evaluating views inside the store is replaced by the rows given to `Query`.
- The asynchronous callback style: each callback pair is a result value, and an exception is an outcome (`RowThrew`, `Threw`).
- Base.DeepMerge: the case of a truthy primitive or array target under an object source value is not modelled faithfully. The model keeps the target's value unchanged. In JavaScript, sloppy mode (lib/models/base.js has no "use strict"):
  - writes to a primitive are silently ignored;
  - an array gets the source's properties written into it;
  - a TypeError is thrown when the source object under a primitive has an object-valued property that itself has a property. For example, `{a:{b:{c:1}}}` into `{a:5}` ends in `undefined.c = 1`.

  The model does not capture that exception.
- The instance's prototype methods, and `type: this` on the prototype: an instance is its own fields only.
- JsonDoc.IsDigitText: `isNaN` is modelled for decimal digit strings only. JavaScript also treats whitespace, signs, fractions, exponents and hex as numeric.
- JsonDoc.Lower: covers ASCII letters only; Unicode case mapping is not modelled.
- JsonDoc.LowerChar: the same: a non-ASCII capital is kept, where `toLowerCase` would lower it.
- ViewDefs.ReplaceAll: `$` patterns in the replacement string (`$&`, `$1`) are not interpreted; model names containing `$` are excluded from the idempotence lemmas.
- The enumeration order of integer-like property names in JavaScript objects: views are enumerated in insertion order.
- Scraper.CrawlSpec: the site is a finite sequence, and fetching past its end fails like a failed fetch. The real recursion is bounded only by the site.
- Multiverse ids are taken as strings; a missing `multiverseid` query parameter (`"mtg_card_undefined"`) is not modelled.
- Base.Instance.Update: the source assigns `this[property] = hash[property]` (lib/models/base.js:127), so nested objects and arrays are shared with the hash, as the comment at lines 138-140 promises. The model copies them as values, so a later change through one side is not seen by the other.
- Base.Instance.DeepUpdate: `recurse` writes into the target's nested objects in place (lib/models/base.js:149-150). Those objects can be shared with an earlier hash or with the new one: after `inst.update(h)` with `h = {meta:{a:1}}`, `inst.deepUpdate({meta:{b:2}})` also changes `h.meta`. The model's fields are values and copies, so that shared update is not captured; the instance's own resulting fields are the same.
- Aliasing: `localviews` holds the configuration's own view objects in the source, so substitution also rewrites the configuration; the model copies them.
- Name clashes between views and model members are not modelled. A wrapper (lib/models/base.js:224) overwrites a member assigned before it: `pluralized_name` (line 49), `newInstance` (line 170) or `handleViewError` (line 177). `updateDesignDocuments` (line 246) and `find` (line 293) are assigned later and replace a wrapper of the same name.
- Base.Model.NewInstance: the source sets the prototype of the given hash and returns that same object (lib/models/base.js:172-174). The scraper then saves `new_card` itself (cardscience.js:180-181). The model returns a fresh `Instance` holding a copy, and so does not capture that identity or aliasing. The saved fields are the same.
- Base.Registry.UpdateAllDesignDocuments: `done` and `error` are folded into the returned flag, and the error value passed to `error` is not returned.

## Findings

| source | as written | input that shows it | evidently intended | confidence | as-written member | corrected member |
|---|---|---|---|---|---|---|
| cardscience.js:190-192 | `find` reports a missing card as `success(undefined)` (lib/models/base.js:296-297), and the success callback calls `destroy` on its argument | any row whose card is not stored yet, e.g. the first row scraped into an empty store: `undefined.destroy` throws | a missing card is created directly | not executed | Scraper.AbsentThrowsAsWritten | Scraper.UpsertNoFaults |
| cardscience.js:170 | the derived id goes into `id`, but `save` writes under `_id` (lib/models/base.js:79), so a card is POSTed under a store-generated key | any row whose create succeeds: a later `find("mtg_card_" + mid)` sees `not_found` | `_id` also set to the derived id | not executed | Scraper.CardLostAsWritten | Scraper.UpsertDoneFindable |
| lib/models/base.js:219-231 | every wrapper closes over the one loop variable `view_name`, so every wrapper queries the last-enumerated view | a model configured with one view `byName`: its `all` wrapper queries `<plural>/byName` | each wrapper queries its own view | not executed | ViewDefs.WrappersShareLastName | ViewDefs.ViewPathInjective |
| cardscience.js:223 | `scrapePage(0)` is called without callbacks, so the last page's `success()` (line 215) calls `undefined` and throws | any crawl whose pages all go through, e.g. one fault-free page without a link onward (the as-written member keeps the corrected row handling, so only the missing callback is shown) | the crawl reports success | not executed | Scraper.ScrapeAsWrittenThrows | Scraper.CrawlFinishes |

The corrected definitions are the ones the rest of the model uses:

- `Scraper.Upsert`, with `Scraper.CardFields`, which sets `_id`, is carried out by `Scraper.ProcessRow`.
- `ViewDefs.ViewPath` is the path `Base.Model.Query` sends.
- `Scraper.Scrape` starts the crawl with a `success` callback. `Scraper.CrawlFinishes` proves that such a crawl finishes on every fault-free site, and `Scraper.ScrapeOnePage` is a one-page instance of it.
