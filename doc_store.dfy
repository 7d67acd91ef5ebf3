/**
  The document store the model layer talks to (CouchDB reached through the
  cradle driver). Only its logical contract is modelled: a map from key to
  document, a revision clock and a log of the requests it received. Whatever
  the network decides (a failed request, the id a POST is given) arrives as
  a parameter of the request.
*/
module DocStore {
  import opened Wrappers
  import opened JsonDoc

  /** The `error` field of a store reply: "not_found", "conflict" or anything else. */
  datatype StoreError = NotFound | Conflict | Failure(reason: string)

  datatype Result<+T> = Ok(value: T) | Err(error: StoreError)

  /** One request as the store received it. */
  datatype Op =
    | GetOp(id: string)
    | SaveOp(key: Option<string>)
    | RemoveOp(key: Option<string>)
    | ViewOp(path: string, options: Json)

  datatype StoreState = StoreState(docs: map<string, Doc>, clock: nat, log: seq<Op>)

  /** The revision token a stored document carries, if any. */
  function RevisionOf(doc: Doc): Option<Json> {
    if "_rev" in doc then Some(doc["_rev"]) else None
  }

  /** What the store keeps for `doc` written under `key` with revision `rev`. */
  function Stamped(doc: Doc, key: string, rev: Json): Doc {
    doc["_id" := Str(key)]["_rev" := rev]
  }

  /** `get(key)`: the stored document, `not_found`, or the injected failure. */
  function GetStep(st: StoreState, key: string, fault: Option<StoreError>): (StoreState, Result<Doc>) {
    var st1 := st.(log := st.log + [GetOp(key)]);
    if fault.Some? then (st1, Err(fault.value))
    else if key !in st.docs then (st1, Err(NotFound))
    else (st1, Ok(st.docs[key]))
  }

  /**
    `save(key, rev, doc)`. Without a key the store POSTs the document under the
    id `uuid` its generator produced. A revision that is given must match the
    stored one; a PUT without one replaces the stored document (the driver
    looks the current revision up and retries). A success issues a fresh
    revision and returns the key and that revision.
  */
  function SaveStep(st: StoreState, key: Option<string>, rev: Option<Json>, doc: Doc,
                    fault: Option<StoreError>, uuid: string): (StoreState, Result<(string, Json)>) {
    var st1 := st.(log := st.log + [SaveOp(key)]);
    var k := key.GetOr(uuid);
    if fault.Some? then (st1, Err(fault.value))
    else if key.None? && k in st.docs then (st1, Err(Conflict))
    else if rev.Some? && (k !in st.docs || RevisionOf(st.docs[k]) != rev) then (st1, Err(Conflict))
    else
      var r := Num(st.clock + 1);
      (st1.(docs := st.docs[k := Stamped(doc, k, r)], clock := st.clock + 1), Ok((k, r)))
  }

  /** `remove(key)`: deletes the document; a missing or unusable key is `not_found`. */
  function RemoveStep(st: StoreState, key: Option<string>, fault: Option<StoreError>): (StoreState, Result<()>) {
    var st1 := st.(log := st.log + [RemoveOp(key)]);
    if fault.Some? then (st1, Err(fault.value))
    else if key.None? || key.value !in st.docs then (st1, Err(NotFound))
    else (st1.(docs := st.docs - {key.value}), Ok(()))
  }

  /**
    `view(path, options)`: evaluating a view runs JavaScript inside the store,
    so its rows are the `reply` parameter; the store only records the request.
  */
  function ViewStep(st: StoreState, path: string, options: Json, reply: Result<seq<Doc>>): (StoreState, Result<seq<Doc>>) {
    (st.(log := st.log + [ViewOp(path, options)]), reply)
  }

  /** A successful save can be read back: the document, stamped with its key and new revision. */
  lemma GetAfterSave(st: StoreState, key: Option<string>, rev: Option<Json>, doc: Doc,
                     fault: Option<StoreError>, uuid: string)
    requires SaveStep(st, key, rev, doc, fault, uuid).1.Ok?
    ensures var (st1, r) := SaveStep(st, key, rev, doc, fault, uuid);
            var (k, rv) := r.value;
            && k == key.GetOr(uuid)
            && rv != Null
            && GetStep(st1, k, None).1 == Ok(Stamped(doc, k, rv))
            && RevisionOf(st1.docs[k]) == Some(rv)
            && (forall other :: other in st.docs && other != k ==> other in st1.docs && st1.docs[other] == st.docs[other])
  {
  }

  /** After a successful removal the key reads as `not_found`, and nothing else changed. */
  lemma GetAfterRemove(st: StoreState, key: Option<string>, fault: Option<StoreError>)
    requires RemoveStep(st, key, fault).1.Ok?
    ensures var st1 := RemoveStep(st, key, fault).0;
            && key.Some? && key.value in st.docs
            && GetStep(st1, key.value, None).1 == Err(NotFound)
            && st1.docs == st.docs - {key.value}
  {
  }

  /** The in-memory store. Every request appends to `log`; `clock` counts the revisions issued. */
  class CouchDb {
    var docs: map<string, Doc>
    var clock: nat
    var log: seq<Op>

    function State(): StoreState
      reads this
    {
      StoreState(docs, clock, log)
    }

    constructor ()
      ensures State() == StoreState(map[], 0, [])
    {
      docs, clock, log := map[], 0, [];
    }

    method Get(key: string, fault: Option<StoreError>) returns (r: Result<Doc>)
      modifies this
      ensures (State(), r) == GetStep(old(State()), key, fault)
    {
      log := log + [GetOp(key)];
      if fault.Some? {
        r := Err(fault.value);
      } else if key !in docs {
        r := Err(NotFound);
      } else {
        r := Ok(docs[key]);
      }
    }

    method Save(key: Option<string>, rev: Option<Json>, doc: Doc, fault: Option<StoreError>, uuid: string)
      returns (r: Result<(string, Json)>)
      modifies this
      ensures (State(), r) == SaveStep(old(State()), key, rev, doc, fault, uuid)
    {
      log := log + [SaveOp(key)];
      var k := key.GetOr(uuid);
      if fault.Some? {
        r := Err(fault.value);
      } else if key.None? && k in docs {
        r := Err(Conflict);
      } else if rev.Some? && (k !in docs || RevisionOf(docs[k]) != rev) {
        r := Err(Conflict);
      } else {
        clock := clock + 1;
        docs := docs[k := Stamped(doc, k, Num(clock))];
        r := Ok((k, Num(clock)));
      }
    }

    method Remove(key: Option<string>, fault: Option<StoreError>) returns (r: Result<()>)
      modifies this
      ensures (State(), r) == RemoveStep(old(State()), key, fault)
    {
      log := log + [RemoveOp(key)];
      if fault.Some? {
        r := Err(fault.value);
      } else if key.None? || key.value !in docs {
        r := Err(NotFound);
      } else {
        docs := docs - {key.value};
        r := Ok(());
      }
    }

    method View(path: string, options: Json, reply: Result<seq<Doc>>) returns (r: Result<seq<Doc>>)
      modifies this
      ensures (State(), r) == ViewStep(old(State()), path, options, reply)
    {
      log := log + [ViewOp(path, options)];
      r := reply;
    }
  }
}
