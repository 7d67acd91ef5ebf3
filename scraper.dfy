/**
  The scraper of cardscience.js. Each card row of a results page becomes a
  `card` document: the card is looked up by an id derived from its
  multiverse id, destroyed when it is there, and created anew. Rows are
  handled one at a time and the first that fails ends the page with an
  exception; after a page whose rows all went through, the next page is
  fetched while the paging control ends in a link. The browser is replaced
  by rows already read off the page, the store by DocStore.
*/
module Scraper {
  import opened Wrappers
  import opened JsonDoc
  import opened DocStore
  import opened ManaCost
  import opened Base

  /** A card row as the page shows it: title, multiverse id, the cost icons' `alt` labels, converted cost. */
  datatype Row = Row(title: string, mid: string, alts: seq<string>, converted: string)

  /** A results page: its card rows and the tag name of the paging control's last child. */
  datatype Page = Page(rows: seq<Row>, lastTag: string)

  /** What the store decides for one row: how its get, remove and save end, and the id a POST gets. */
  datatype RowEnv = RowEnv(findFault: Option<StoreError>, destroyFault: Option<StoreError>,
                           saveFault: Option<StoreError>, uuid: string)

  /** How a row ends: `each_done()`, `each_error()`, or an exception thrown while handling it. */
  datatype RowOutcome = RowDone | RowError | RowThrew

  predicate NoFaults(env: RowEnv) {
    env.findFault.None? && env.destroyFault.None? && env.saveFault.None?
  }

  // ----- the card document -----

  const CardPrefix: string := "mtg_card_"

  /** The id a card is looked up by: the prefix and the multiverse id. */
  function CardId(mid: string): string {
    CardPrefix + mid
  }

  /** Distinct multiverse ids give distinct card ids, and a card id is never empty. */
  lemma CardIdInjective(a: string, b: string)
    ensures CardId(a) == CardId(b) <==> a == b
    ensures CardId(a) != ""
  {
    if CardId(a) == CardId(b) {
      assert a == CardId(a)[|CardPrefix|..];
      assert b == CardId(b)[|CardPrefix|..];
    }
    assert CardId(a)[0] == 'm';
  }

  /** The `mana_costs` object as stored: each key's count as a number. */
  function ManaJson(c: Costs): Json {
    Obj(map k | k in c :: Num(c[k]))
  }

  /** `new_card` as the scraper builds it: the derived id goes into `id`, not `_id`. */
  function CardFieldsAsWritten(row: Row): Doc {
    map["title" := Str(row.title), "id" := Str(CardId(row.mid)), "mid" := Str(row.mid),
        "mana_cost" := ManaJson(ManaCost.ManaCost(row.alts)), "converted_mana_cost" := Str(row.converted)]
  }

  /** `new_card` with the derived id also in `_id`, the key `save` writes under. */
  function CardFields(row: Row): Doc {
    CardFieldsAsWritten(row)["_id" := Str(CardId(row.mid))]
  }

  /** The document a card is stored as (before the store stamps its revision). */
  function CardDoc(row: Row, name: string): Doc {
    SaveHash(CardFields(row), name)
  }

  // ----- one row -----

  /** `createCard`: the card saved as a new instance; `each_done` on success, `each_error` otherwise. */
  function CreateSpec(st: StoreState, name: string, fields: Doc, env: RowEnv): (StoreState, RowOutcome) {
    var o := SaveSpec(st, fields, name, env.saveFault, env.uuid);
    (o.store, if o.done then RowDone else RowError)
  }

  /**
    The row as written: `find`'s success callback destroys its argument and
    then creates, its error callback creates. A missing card reaches the
    success callback with `undefined`, and calling `destroy` on it throws.
  */
  function RowAsWritten(st: StoreState, name: string, row: Row, env: RowEnv): (StoreState, RowOutcome) {
    var (st1, l) := FindSpec(st, CardId(row.mid), name, env.findFault);
    if l.Absent? || l.Broken? then (st1, RowThrew)
    else
      var (st2, create) := if l.Found? then DestroySpec(st1, l.doc, env.destroyFault) else (st1, true);
      if create then CreateSpec(st2, name, CardFieldsAsWritten(row), env) else (st2, RowError)
  }

  /**
    The row as intended: a card that is there is destroyed first, a missing
    one is simply created, and the card is saved under its derived id.
  */
  function Upsert(st: StoreState, name: string, row: Row, env: RowEnv): (StoreState, RowOutcome) {
    var (st1, l) := FindSpec(st, CardId(row.mid), name, env.findFault);
    if l.Broken? then (st1, RowThrew)
    else
      var (st2, create) := if l.Found? then DestroySpec(st1, l.doc, env.destroyFault) else (st1, true);
      if create then CreateSpec(st2, name, CardFields(row), env) else (st2, RowError)
  }

  /** A card missing from the store makes the row as written throw, before anything is written. */
  lemma AbsentThrowsAsWritten(st: StoreState, name: string, row: Row, env: RowEnv)
    requires env.findFault.None? && CardId(row.mid) !in st.docs
    ensures var (st1, o) := RowAsWritten(st, name, row, env);
            o == RowThrew && st1.docs == st.docs && st1.log == st.log + [GetOp(CardId(row.mid))]
  {
  }

  /** So the first row scraped into an empty store throws. */
  lemma EmptyStoreThrowsAsWritten(name: string, row: Row, env: RowEnv)
    requires env.findFault.None?
    ensures RowAsWritten(StoreState(map[], 0, []), name, row, env).1 == RowThrew
  {
  }

  /**
    A card the row as written creates is POSTed under the store's fresh id,
    so nothing ever appears under the id it is looked up by.
  */
  lemma CardLostAsWritten(st: StoreState, name: string, row: Row, env: RowEnv)
    requires RowAsWritten(st, name, row, env).1 == RowDone
    ensures var st1 := RowAsWritten(st, name, row, env).0;
            && env.uuid in st1.docs
            && st1.docs[env.uuid]["mid"] == Str(row.mid)
            && (CardId(row.mid) != env.uuid ==> (CardId(row.mid) in st1.docs ==> CardId(row.mid) in st.docs))
  {
    var id := CardId(row.mid);
    var (st1, l) := FindSpec(st, id, name, env.findFault);
    var fields := CardFieldsAsWritten(row);
    assert KeyField(fields, "_id").None? && RevField(fields).None?;
    if l.Found? {
      var (st2, removed) := DestroySpec(st1, l.doc, env.destroyFault);
      assert st2.docs.Keys <= st.docs.Keys;
    }
  }

  /** The slot of a card's id: empty, or a document `find` accepts and `destroy` can remove. */
  predicate CardSlotOk(st: StoreState, name: string, mid: string) {
    var id := CardId(mid);
    id in st.docs ==>
      && "_id" in st.docs[id]
      && ("type" in st.docs[id] && st.docs[id]["type"] == Str(name) ==> KeyField(st.docs[id], "id") == Some(id))
  }

  /** A card stored as `CardDoc` keeps its slot usable. */
  lemma CardDocSlot(st: StoreState, name: string, row: Row, rev: Json)
    ensures var id := CardId(row.mid);
            CardSlotOk(st.(docs := st.docs[id := Stamped(CardDoc(row, name), id, rev)]), name, row.mid)
  {
    CardIdInjective(row.mid, row.mid);
  }

  /**
    Without faults, the intended row always finishes and replaces whatever
    its id held by the card, with one new revision; nothing else changes.
  */
  lemma UpsertNoFaults(st: StoreState, name: string, row: Row, env: RowEnv)
    requires NoFaults(env) && CardSlotOk(st, name, row.mid)
    ensures var (st1, o) := Upsert(st, name, row, env);
            var id := CardId(row.mid);
            && o == RowDone
            && st1.clock == st.clock + 1
            && st1.docs == st.docs[id := Stamped(CardDoc(row, name), id, Num(st.clock + 1))]
            && CardSlotOk(st1, name, row.mid)
  {
    var id := CardId(row.mid);
    CardIdInjective(row.mid, row.mid);
    var fields := CardFields(row);
    assert KeyField(fields, "_id") == Some(id) && RevField(fields).None?;
    var (st1, l) := FindSpec(st, id, name, env.findFault);
    if l.Found? {
      assert KeyField(l.doc, "id") == Some(id);
      var (st2, removed) := DestroySpec(st1, l.doc, env.destroyFault);
      assert st2.docs[id := Stamped(CardDoc(row, name), id, Num(st.clock + 1))]
          == st.docs[id := Stamped(CardDoc(row, name), id, Num(st.clock + 1))];
    }
    CardDocSlot(st, name, row, Num(st.clock + 1));
  }

  /** Handling the same row twice without faults leaves what once does, up to the card's revision. */
  lemma UpsertIdempotent(st: StoreState, name: string, row: Row, env: RowEnv)
    requires NoFaults(env) && CardSlotOk(st, name, row.mid)
    ensures var once := Upsert(st, name, row, env).0;
            var twice := Upsert(once, name, row, env).0;
            var id := CardId(row.mid);
            && id in once.docs
            && twice.docs == once.docs[id := once.docs[id]["_rev" := Num(st.clock + 2)]]
  {
    var id := CardId(row.mid);
    UpsertNoFaults(st, name, row, env);
    var once := Upsert(st, name, row, env).0;
    UpsertNoFaults(once, name, row, env);
    assert Stamped(CardDoc(row, name), id, Num(st.clock + 2))
        == Stamped(CardDoc(row, name), id, Num(st.clock + 1))["_rev" := Num(st.clock + 2)];
  }

  /**
    When `find` yields the card, `destroy` runs before any save; if it
    fails the row ends in error and nothing is saved.
  */
  lemma UpsertFoundOrder(st: StoreState, name: string, row: Row, env: RowEnv)
    requires FindSpec(st, CardId(row.mid), name, env.findFault).1.Found?
    ensures var doc := FindSpec(st, CardId(row.mid), name, env.findFault).1.doc;
            var (st1, o) := Upsert(st, name, row, env);
            var id := CardId(row.mid);
            var key := KeyField(doc, "id");
            var removed := env.destroyFault.None? && key.Some? && key.value in st.docs;
            && (removed ==> st1.log == st.log + [GetOp(id), RemoveOp(key), SaveOp(Some(id))]
                             && (o == RowDone <==> env.saveFault.None?))
            && (!removed ==> st1.log == st.log + [GetOp(id), RemoveOp(key)] && o == RowError
                              && st1.docs == st.docs)
  {
    CardIdInjective(row.mid, row.mid);
    assert KeyField(CardFields(row), "_id") == Some(CardId(row.mid)) && RevField(CardFields(row)).None?;
  }

  /**
    When `find` yields no card, the row saves at once; only a document
    without `_id` makes it throw, before any write.
  */
  lemma UpsertNotFoundOrder(st: StoreState, name: string, row: Row, env: RowEnv)
    requires !FindSpec(st, CardId(row.mid), name, env.findFault).1.Found?
    ensures var l := FindSpec(st, CardId(row.mid), name, env.findFault).1;
            var (st1, o) := Upsert(st, name, row, env);
            var id := CardId(row.mid);
            && (l.Broken? ==> o == RowThrew && st1.log == st.log + [GetOp(id)] && st1.docs == st.docs)
            && (!l.Broken? ==> st1.log == st.log + [GetOp(id), SaveOp(Some(id))]
                               && (o == RowDone <==> env.saveFault.None?))
  {
    CardIdInjective(row.mid, row.mid);
    assert KeyField(CardFields(row), "_id") == Some(CardId(row.mid)) && RevField(CardFields(row)).None?;
  }

  /** A row that finishes has stored its card where `find` looks for it. */
  lemma UpsertDoneFindable(st: StoreState, name: string, row: Row, env: RowEnv)
    requires Upsert(st, name, row, env).1 == RowDone
    ensures var st1 := Upsert(st, name, row, env).0;
            var l := FindSpec(st1, CardId(row.mid), name, None).1;
            && l.Found?
            && (forall f :: f in CardDoc(row, name) && f != "_rev" ==> f in l.doc && l.doc[f] == CardDoc(row, name)[f])
            && l.doc["mana_cost"] == ManaJson(ManaCost.ManaCost(row.alts))
  {
    var id := CardId(row.mid);
    CardIdInjective(row.mid, row.mid);
    var fields := CardFields(row);
    assert KeyField(fields, "_id") == Some(id) && RevField(fields).None?;
    var (st1, l) := FindSpec(st, id, name, env.findFault);
    if l.Found? {
      var (st2, removed) := DestroySpec(st1, l.doc, env.destroyFault);
      SaveThenFind(st2, fields, name, env.saveFault, env.uuid);
    } else {
      SaveThenFind(st1, fields, name, env.saveFault, env.uuid);
    }
  }

  /** `createCard`: a new instance over the card's fields, saved. */
  method CreateCard(card: Model, fields: Doc, env: RowEnv) returns (o: RowOutcome)
    requires card.registry.couch != null
    modifies card.registry.couch
    ensures (card.registry.couch.State(), o) == CreateSpec(old(card.registry.couch.State()), card.name, fields, env)
  {
    var newCard := card.NewInstance(Some(fields));
    var saved := newCard.Save(env.saveFault, env.uuid);
    o := if saved then RowDone else RowError;
  }

  /** One row: the mana cost parsed, the card built, looked up, destroyed if found, and created. */
  method ProcessRow(card: Model, row: Row, env: RowEnv) returns (o: RowOutcome)
    requires card.registry.couch != null
    modifies card.registry.couch
    ensures (card.registry.couch.State(), o) == Upsert(old(card.registry.couch.State()), card.name, row, env)
  {
    var manaCosts := ParseManaCost(row.alts);
    var id := CardPrefix + row.mid;
    var newCard := map["title" := Str(row.title), "id" := Str(id), "mid" := Str(row.mid),
                       "mana_cost" := ManaJson(manaCosts), "converted_mana_cost" := Str(row.converted)];
    newCard := newCard["_id" := Str(id)];
    var l, found := card.Find(id, env.findFault);
    if found != null {
      var destroyed := found.Destroy(env.destroyFault);
      if destroyed {
        o := CreateCard(card, newCard, env);
      } else {
        o := RowError;
      }
    } else if l.Broken? {
      o := RowThrew;
    } else {
      o := CreateCard(card, newCard, env);
    }
  }

  // ----- one page -----

  /** What `eachWait` runs on a row: from a store, the row and its index to the new store and the row's end. */
  type RowHandler = (StoreState, Row, nat) -> (StoreState, RowOutcome)

  /** The scraper's row handler: the intended row, the `i`-th meeting the store as `env(i)` says. */
  function Handler(name: string, env: nat -> RowEnv): RowHandler {
    (st: StoreState, row: Row, i: nat) => Upsert(st, name, row, env(i))
  }

  /**
    `eachWait(handler, done, error)` over a page's rows: one row at a time,
    `done` once all rows finished, and the first that does not ends it.
  */
  function EachWait(st: StoreState, rows: seq<Row>, handle: RowHandler, i: nat): (StoreState, RowOutcome)
    decreases |rows|
  {
    if rows == [] then (st, RowDone)
    else
      var (st1, o) := handle(st, rows[0], i);
      if o != RowDone then (st1, o) else EachWait(st1, rows[1..], handle, i + 1)
  }

  /** The rows after one that fails are never looked at. */
  lemma {:induction false} EachWaitFailFast(st: StoreState, rows: seq<Row>, more: seq<Row>, handle: RowHandler, i: nat)
    requires EachWait(st, rows, handle, i).1 != RowDone
    ensures EachWait(st, rows + more, handle, i) == EachWait(st, rows, handle, i)
    decreases |rows|
  {
    assert (rows + more)[0] == rows[0];
    var (st1, o) := handle(st, rows[0], i);
    if o == RowDone {
      assert (rows + more)[1..] == rows[1..] + more;
      EachWaitFailFast(st1, rows[1..], more, handle, i + 1);
    }
  }

  /** After rows that all finish, the next rows start from the store they left, at the next index. */
  lemma {:induction false} EachWaitConcat(st: StoreState, rows: seq<Row>, more: seq<Row>, handle: RowHandler, i: nat)
    requires EachWait(st, rows, handle, i).1 == RowDone
    ensures EachWait(st, rows + more, handle, i) == EachWait(EachWait(st, rows, handle, i).0, more, handle, i + |rows|)
    decreases |rows|
  {
    if rows == [] {
      assert rows + more == more;
    } else {
      assert (rows + more)[0] == rows[0];
      var (st1, o) := handle(st, rows[0], i);
      assert (rows + more)[1..] == rows[1..] + more;
      EachWaitConcat(st1, rows[1..], more, handle, i + 1);
    }
  }

  /** A page ends in `done` exactly when every row finished, each from the store the previous one left. */
  lemma {:induction false} EachWaitDone(st: StoreState, rows: seq<Row>, handle: RowHandler, i: nat)
    ensures EachWait(st, rows, handle, i).1 == RowDone <==>
              rows == [] || (handle(st, rows[0], i).1 == RowDone
                             && EachWait(handle(st, rows[0], i).0, rows[1..], handle, i + 1).1 == RowDone)
    ensures EachWait(st, rows, handle, i).1 != RowDone ==>
              exists k :: 0 <= k < |rows| && EachWait(st, rows[..k], handle, i).1 == RowDone
                                          && EachWait(st, rows, handle, i) == handle(EachWait(st, rows[..k], handle, i).0, rows[k], i + k)
    decreases |rows|
  {
    if rows != [] {
      var (st1, o) := handle(st, rows[0], i);
      if o != RowDone {
        assert rows[..0] == [];
      } else if EachWait(st1, rows[1..], handle, i + 1).1 != RowDone {
        EachWaitDone(st1, rows[1..], handle, i + 1);
        var k :| 0 <= k < |rows[1..]| && EachWait(st1, rows[1..][..k], handle, i + 1).1 == RowDone
                 && EachWait(st1, rows[1..], handle, i + 1)
                    == handle(EachWait(st1, rows[1..][..k], handle, i + 1).0, rows[1..][k], i + 1 + k);
        assert rows[..k + 1][0] == rows[0] && rows[..k + 1][1..] == rows[1..][..k];
        assert EachWait(st, rows[..k + 1], handle, i) == EachWait(st1, rows[1..][..k], handle, i + 1);
      }
    }
  }

  lemma EachWaitStep(st: StoreState, rows: seq<Row>, handle: RowHandler, i: nat)
    requires rows != []
    ensures var step := handle(st, rows[0], i);
            EachWait(st, rows, handle, i) == if step.1 != RowDone then step else EachWait(step.0, rows[1..], handle, i + 1)
  {
  }

  /** The loop of `eachWait`: rows in order, leaving at the first that does not finish. */
  method ProcessRows(card: Model, rows: seq<Row>, env: nat -> RowEnv) returns (o: RowOutcome)
    requires card.registry.couch != null
    modifies card.registry.couch
    ensures (card.registry.couch.State(), o) == EachWait(old(card.registry.couch.State()), rows, Handler(card.name, env), 0)
  {
    ghost var handle := Handler(card.name, env);
    ghost var goal := EachWait(card.registry.couch.State(), rows, handle, 0);
    o := RowDone;
    var i := 0;
    while i < |rows|
      invariant 0 <= i <= |rows|
      invariant o == RowDone
      invariant EachWait(card.registry.couch.State(), rows[i..], handle, i) == goal
    {
      ghost var before := card.registry.couch.State();
      EachWaitStep(before, rows[i..], handle, i);
      assert rows[i..][0] == rows[i] && rows[i..][1..] == rows[i + 1..];
      assert handle(before, rows[i], i) == Upsert(before, card.name, rows[i], env(i));
      o := ProcessRow(card, rows[i], env(i));
      ghost var step := handle(before, rows[i], i);
      assert step == (card.registry.couch.State(), o);
      if o != RowDone {
        assert goal == step;
        return;
      }
      i := i + 1;
    }
    assert rows[i..] == [];
  }

  // ----- the crawl -----

  /** The paging decision: another page follows exactly when the last paging child is a link. */
  predicate NextPage(p: Page) {
    p.lastTag == "A"
  }

  /** `success()` was called, or the crawl ended in an exception. */
  datatype Ending = Finished | Threw

  /** A crawl's result: the store, the numbers of the pages whose rows were handled, and its end. */
  datatype Crawl = Crawl(store: StoreState, pages: seq<nat>, ending: Ending)

  /**
    `scrapePage(pageNo, success, failure)` over a site whose `n`-th page
    fetches as `site[n]` (absent or `None`: the fetch fails and throws) and
    whose `n`-th page's rows meet the store as `net(n)` says. A page with a
    row that fails throws; a page whose rows all finish goes on to the next
    page when its paging control ends in a link, and otherwise calls
    `success`, which throws when none was passed.
  */
  function CrawlSpec(st: StoreState, name: string, site: seq<Option<Page>>, net: nat -> nat -> RowEnv,
                     pageNo: nat, hasSuccess: bool): Crawl
    decreases |site| - pageNo
  {
    if pageNo >= |site| || site[pageNo].None? then Crawl(st, [], Threw)
    else
      var page := site[pageNo].value;
      var (st1, o) := EachWait(st, page.rows, Handler(name, net(pageNo)), 0);
      if o != RowDone then Crawl(st1, [pageNo], Threw)
      else if NextPage(page) then
        var rest := CrawlSpec(st1, name, site, net, pageNo + 1, hasSuccess);
        rest.(pages := [pageNo] + rest.pages)
      else Crawl(st1, [pageNo], if hasSuccess then Finished else Threw)
  }

  /**
    Pages are handled in consecutive order from the first, each one fetched,
    and the crawl moves past a page only when its paging control ends in a
    link; it finishes only after a page where it does not.
  */
  lemma {:induction false} CrawlConsecutive(st: StoreState, name: string, site: seq<Option<Page>>,
                                            net: nat -> nat -> RowEnv, pageNo: nat, hasSuccess: bool)
    ensures var c := CrawlSpec(st, name, site, net, pageNo, hasSuccess);
            && (forall j :: 0 <= j < |c.pages| ==> c.pages[j] == pageNo + j && c.pages[j] < |site| && site[c.pages[j]].Some?)
            && (forall j :: 0 <= j < |c.pages| - 1 ==> NextPage(site[c.pages[j]].value))
            && (c.ending == Finished ==>
                  hasSuccess && c.pages != [] && !NextPage(site[c.pages[|c.pages| - 1]].value))
    decreases |site| - pageNo
  {
    if pageNo < |site| && site[pageNo].Some? {
      var page := site[pageNo].value;
      var (st1, o) := EachWait(st, page.rows, Handler(name, net(pageNo)), 0);
      if o == RowDone && NextPage(page) {
        CrawlConsecutive(st1, name, site, net, pageNo + 1, hasSuccess);
        var rest := CrawlSpec(st1, name, site, net, pageNo + 1, hasSuccess);
        var c := CrawlSpec(st, name, site, net, pageNo, hasSuccess);
        assert c.pages == [pageNo] + rest.pages;
        assert forall j :: 0 < j < |c.pages| ==> c.pages[j] == rest.pages[j - 1];
      }
    }
  }

  /**
    Whether `success` was passed decides only how the crawl ends: the store
    and the pages visited are the same, and without it the crawl always throws.
  */
  lemma {:induction false} SuccessOnlyEnds(st: StoreState, name: string, site: seq<Option<Page>>,
                                           net: nat -> nat -> RowEnv, pageNo: nat)
    ensures var t := CrawlSpec(st, name, site, net, pageNo, true);
            var f := CrawlSpec(st, name, site, net, pageNo, false);
            && t.store == f.store && t.pages == f.pages
            && f.ending == Threw
    decreases |site| - pageNo
  {
    if pageNo < |site| && site[pageNo].Some? {
      var page := site[pageNo].value;
      var (st1, o) := EachWait(st, page.rows, Handler(name, net(pageNo)), 0);
      if o == RowDone && NextPage(page) {
        SuccessOnlyEnds(st1, name, site, net, pageNo + 1);
      }
    }
  }

  /**
    A page whose rows all finish: the next page is requested exactly when its
    paging control ends in a link; otherwise the crawl ends after it, with
    `success` when one was passed.
  */
  lemma CrawlStep(st: StoreState, name: string, site: seq<Option<Page>>,
                  net: nat -> nat -> RowEnv, pageNo: nat, hasSuccess: bool)
    requires pageNo < |site| && site[pageNo].Some?
    requires EachWait(st, site[pageNo].value.rows, Handler(name, net(pageNo)), 0).1 == RowDone
    ensures var page := site[pageNo].value;
            var st1 := EachWait(st, page.rows, Handler(name, net(pageNo)), 0).0;
            var c := CrawlSpec(st, name, site, net, pageNo, hasSuccess);
            var rest := CrawlSpec(st1, name, site, net, pageNo + 1, hasSuccess);
            && (NextPage(page) ==> c == rest.(pages := [pageNo] + rest.pages))
            && (!NextPage(page) ==> c == Crawl(st1, [pageNo], if hasSuccess then Finished else Threw))
  {
  }

  /**
    A page with a row that does not finish: the exception ends the crawl with
    that page, whatever its paging control says, and no later page is fetched.
  */
  lemma CrawlRowFails(st: StoreState, name: string, site: seq<Option<Page>>,
                      net: nat -> nat -> RowEnv, pageNo: nat, hasSuccess: bool)
    requires pageNo < |site| && site[pageNo].Some?
    requires EachWait(st, site[pageNo].value.rows, Handler(name, net(pageNo)), 0).1 != RowDone
    ensures CrawlSpec(st, name, site, net, pageNo, hasSuccess)
            == Crawl(EachWait(st, site[pageNo].value.rows, Handler(name, net(pageNo)), 0).0, [pageNo], Threw)
  {
  }

  /** Writing one card's slot, and leaving it usable, leaves every card slot usable. */
  lemma SlotsAfterWrite(st: StoreState, st1: StoreState, name: string, mid0: string, doc: Doc)
    requires st1.docs == st.docs[CardId(mid0) := doc]
    requires forall mid :: CardSlotOk(st, name, mid)
    requires CardSlotOk(st1, name, mid0)
    ensures forall mid :: CardSlotOk(st1, name, mid)
  {
    forall mid
      ensures CardSlotOk(st1, name, mid)
    {
      CardIdInjective(mid, mid0);
      if mid != mid0 {
        assert CardSlotOk(st, name, mid);
      }
    }
  }

  /** A fault-free row finishes and keeps every card slot usable. */
  lemma UpsertKeepsSlots(st: StoreState, name: string, row: Row, env: RowEnv)
    requires NoFaults(env)
    requires forall mid :: CardSlotOk(st, name, mid)
    ensures Upsert(st, name, row, env).1 == RowDone
    ensures forall mid :: CardSlotOk(Upsert(st, name, row, env).0, name, mid)
  {
    UpsertNoFaults(st, name, row, env);
    var id := CardId(row.mid);
    SlotsAfterWrite(st, Upsert(st, name, row, env).0, name, row.mid,
                    Stamped(CardDoc(row, name), id, Num(st.clock + 1)));
  }

  /**
    Without faults, and with every card slot usable, every row of a page
    finishes, and the slots stay usable for the rows that come after.
  */
  lemma {:induction false} EachWaitNoFaults(st: StoreState, name: string, rows: seq<Row>, env: nat -> RowEnv, i: nat)
    requires forall j :: NoFaults(env(j))
    requires forall mid :: CardSlotOk(st, name, mid)
    ensures var (st1, o) := EachWait(st, rows, Handler(name, env), i);
            o == RowDone && (forall mid :: CardSlotOk(st1, name, mid))
    decreases |rows|
  {
    if rows != [] {
      var handle := Handler(name, env);
      var row := rows[0];
      EachWaitStep(st, rows, handle, i);
      assert handle(st, row, i) == Upsert(st, name, row, env(i));
      UpsertKeepsSlots(st, name, row, env(i));
      var st1 := Upsert(st, name, row, env(i)).0;
      EachWaitNoFaults(st1, name, rows[1..], env, i + 1);
    }
  }

  /**
    A crawl with `success` over a site where nothing fails, every page from
    `pageNo` on is present, each but the last ends in a link and the last does
    not: it visits every one of those pages in turn and then finishes.
  */
  lemma {:induction false} CrawlFinishes(st: StoreState, name: string, site: seq<Option<Page>>,
                                         net: nat -> nat -> RowEnv, pageNo: nat)
    requires forall p, j :: NoFaults(net(p)(j))
    requires forall mid :: CardSlotOk(st, name, mid)
    requires pageNo < |site|
    requires forall p :: pageNo <= p < |site| ==> site[p].Some?
    requires forall p :: pageNo <= p < |site| - 1 ==> NextPage(site[p].value)
    requires !NextPage(site[|site| - 1].value)
    ensures var c := CrawlSpec(st, name, site, net, pageNo, true);
            && c.ending == Finished
            && |c.pages| == |site| - pageNo
            && (forall j :: 0 <= j < |c.pages| ==> c.pages[j] == pageNo + j)
    decreases |site| - pageNo
  {
    var page := site[pageNo].value;
    var handle := Handler(name, net(pageNo));
    EachWaitNoFaults(st, name, page.rows, net(pageNo), 0);
    var st1 := EachWait(st, page.rows, handle, 0).0;
    CrawlStep(st, name, site, net, pageNo, true);
    if pageNo < |site| - 1 {
      CrawlFinishes(st1, name, site, net, pageNo + 1);
      var rest := CrawlSpec(st1, name, site, net, pageNo + 1, true);
      var c := CrawlSpec(st, name, site, net, pageNo, true);
      assert c.pages == [pageNo] + rest.pages;
      assert forall j :: 0 < j < |c.pages| ==> c.pages[j] == rest.pages[j - 1];
    }
  }

  /**
    The crawl as started, `this.scrapePage(0)`: from page 0 and with no
    callbacks. Only the start is as written; the rows still go through the
    corrected `Upsert`, and the lemma below holds whatever the rows do.
  */
  function ScrapeAsWritten(st: StoreState, name: string, site: seq<Option<Page>>, net: nat -> nat -> RowEnv): Crawl {
    CrawlSpec(st, name, site, net, 0, false)
  }

  /** Started that way, the crawl never finishes: even after the last page it throws. */
  lemma ScrapeAsWrittenThrows(st: StoreState, name: string, site: seq<Option<Page>>, net: nat -> nat -> RowEnv)
    ensures ScrapeAsWritten(st, name, site, net).ending == Threw
  {
    SuccessOnlyEnds(st, name, site, net, 0);
  }

  /** A one-page site with no link onward and no faults: the crawl with `success` finishes. */
  lemma ScrapeOnePage(name: string, row: Row, net: nat -> nat -> RowEnv)
    requires NoFaults(net(0)(0))
    ensures var c := CrawlSpec(StoreState(map[], 0, []), name, [Some(Page([row], "SPAN"))], net, 0, true);
            c.ending == Finished && c.pages == [0]
  {
    var st := StoreState(map[], 0, []);
    var handle := Handler(name, net(0));
    UpsertNoFaults(st, name, row, net(0)(0));
    assert handle(st, row, 0) == Upsert(st, name, row, net(0)(0));
    EachWaitStep(st, [row], handle, 0);
    assert [row][0] == row && [row][1..] == [];
    assert EachWait(st, [row], handle, 0).1 == RowDone;
    assert !NextPage(Page([row], "SPAN")) by {
      assert "SPAN"[0] != "A"[0];
    }
  }

  /** `scrapePage`: the page's rows, then the next page or `success`; see CrawlSpec. */
  method ScrapePage(card: Model, site: seq<Option<Page>>, net: nat -> nat -> RowEnv, pageNo: nat, hasSuccess: bool)
    returns (pages: seq<nat>, ending: Ending)
    requires card.registry.couch != null
    modifies card.registry.couch
    ensures Crawl(card.registry.couch.State(), pages, ending)
            == CrawlSpec(old(card.registry.couch.State()), card.name, site, net, pageNo, hasSuccess)
    decreases |site| - pageNo
  {
    if pageNo >= |site| || site[pageNo].None? {
      pages, ending := [], Threw;
      return;
    }
    var page := site[pageNo].value;
    var o := ProcessRows(card, page.rows, net(pageNo));
    if o != RowDone {
      pages, ending := [pageNo], Threw;
    } else if page.lastTag == "A" {
      var more;
      more, ending := ScrapePage(card, site, net, pageNo + 1, hasSuccess);
      pages := [pageNo] + more;
    } else {
      pages := [pageNo];
      ending := if hasSuccess then Finished else Threw;
    }
  }

  /** The crawl from page 0, with a `success` callback to call after the last page. */
  method Scrape(card: Model, site: seq<Option<Page>>, net: nat -> nat -> RowEnv) returns (pages: seq<nat>, ending: Ending)
    requires card.registry.couch != null
    modifies card.registry.couch
    ensures Crawl(card.registry.couch.State(), pages, ending)
            == CrawlSpec(old(card.registry.couch.State()), card.name, site, net, 0, true)
  {
    pages, ending := ScrapePage(card, site, net, 0, true);
  }
}
