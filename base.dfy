/**
  The model layer of lib/models/base.js: a registry of models over one
  document store; each model is a named kind of document with its views,
  and its instances are mutable hashes of fields. Each operation is first
  given as a function on values (the store's state, the instance's fields);
  the classes below carry out the same steps in place and are proved to
  agree with those functions.
*/
module Base {
  import opened Wrappers
  import opened JsonDoc
  import opened DocStore
  import opened ViewDefs

  // ----- keys an instance is saved and removed under -----

  /** A field used as a store key: a non-empty string, otherwise undefined. */
  function KeyField(fields: Doc, field: string): Option<string> {
    if field in fields && fields[field].Str? && fields[field].s != "" then Some(fields[field].s) else None
  }

  /** The revision `save` passes on: `_rev` when it is set (a falsy one is ignored by the driver). */
  function RevField(fields: Doc): Option<Json> {
    if "_rev" in fields && Truthy(fields["_rev"]) then Some(fields["_rev"]) else None
  }

  /** What `save` sends: a copy of the own fields with `type` set to the model name. */
  function SaveHash(fields: Doc, name: string): Doc {
    fields["type" := Str(name)]
  }

  // ----- save -----

  /** The store after a save, the instance's fields after it, and whether `done` (not `error`) fired. */
  datatype SaveOutcome = SaveOutcome(store: StoreState, fields: Doc, done: bool)

  /**
    `save`: the instance's copy, typed with the model name, is written under
    its `_id` (a fresh store-chosen key when it has none) with its `_rev`.
    On success the reply's key and revision are written back to `_id` and
    `_rev`; on error the instance is left as it was.
  */
  function SaveSpec(st: StoreState, fields: Doc, name: string, fault: Option<StoreError>, uuid: string): (o: SaveOutcome)
    ensures o.store.log == st.log + [SaveOp(KeyField(fields, "_id"))]
    ensures o.done <==>
              && fault.None?
              && (KeyField(fields, "_id").None? ==> uuid !in st.docs)
              && (RevField(fields).Some? ==>
                    var k := KeyField(fields, "_id").GetOr(uuid);
                    k in st.docs && RevisionOf(st.docs[k]) == RevField(fields))
    ensures o.done ==>
              var k := KeyField(fields, "_id").GetOr(uuid);
              && "_id" in o.fields && o.fields["_id"] == Str(k)
              && "_rev" in o.fields
              && k in o.store.docs && o.store.docs[k] == SaveHash(o.fields, name)
              && RevisionOf(o.store.docs[k]) == Some(o.fields["_rev"])
              && (forall other :: other != k ==> (other in o.store.docs <==> other in st.docs))
              && (forall other :: other != k && other in st.docs ==> o.store.docs[other] == st.docs[other])
    ensures !o.done ==> o.fields == fields && o.store.docs == st.docs
    ensures forall f :: f != "_id" && f != "_rev" ==>
              (f in o.fields <==> f in fields) && (f in fields ==> o.fields[f] == fields[f])
  {
    var (st1, r) := SaveStep(st, KeyField(fields, "_id"), RevField(fields), SaveHash(fields, name), fault, uuid);
    if r.Ok? then
      var updated := fields["_id" := Str(r.value.0)]["_rev" := r.value.1];
      assert SaveHash(updated, name) == Stamped(SaveHash(fields, name), r.value.0, r.value.1);
      SaveOutcome(st1, updated, true)
    else
      SaveOutcome(st1, fields, false)
  }

  // ----- find -----

  /** How `find` ends: `success(instance)`, `success(undefined)`, `error(...)`, or a throw. */
  datatype Lookup =
    | Found(doc: Doc)
    | Absent
    | Failed(error: StoreError)
    | WrongType(id: Json)
    | Broken

  /**
    The classification of a store reply to `get`: `not_found` is a success
    without an instance, any other error is an error; a document without `_id`
    throws, one whose `type` is not the model name is an error, and any other
    document is the instance found.
  */
  function ClassifyFind(reply: Result<Doc>, name: string): (l: Lookup)
    ensures l.Absent? <==> reply == Err(NotFound)
    ensures l.Failed? <==> reply.Err? && reply.error != NotFound
    ensures l.Failed? ==> l.error == reply.error
    ensures l.Broken? <==> reply.Ok? && "_id" !in reply.value
    ensures l.WrongType? <==>
              reply.Ok? && "_id" in reply.value && !("type" in reply.value && reply.value["type"] == Str(name))
    ensures l.WrongType? ==> l.id == reply.value["_id"]
    ensures l.Found? <==>
              reply.Ok? && "_id" in reply.value && "type" in reply.value && reply.value["type"] == Str(name)
    ensures l.Found? ==> l.doc == reply.value
  {
    match reply
    case Err(e) => if e == NotFound then Absent else Failed(e)
    case Ok(doc) =>
      if "_id" !in doc then Broken
      else if !("type" in doc && doc["type"] == Str(name)) then WrongType(doc["_id"])
      else Found(doc)
  }

  /** `find(id)`: one `get` and the classification of its reply. */
  function FindSpec(st: StoreState, id: string, name: string, fault: Option<StoreError>): (StoreState, Lookup) {
    var (st1, r) := GetStep(st, id, fault);
    (st1, ClassifyFind(r, name))
  }

  /**
    What a successful save wrote is what `find` returns under the key it was
    written to: the saved instance's fields with `type` set.
  */
  lemma SaveThenFind(st: StoreState, fields: Doc, name: string, fault: Option<StoreError>, uuid: string)
    requires SaveSpec(st, fields, name, fault, uuid).done
    ensures var o := SaveSpec(st, fields, name, fault, uuid);
            var k := KeyField(fields, "_id").GetOr(uuid);
            FindSpec(o.store, k, name, None).1 == Found(SaveHash(o.fields, name))
  {
  }

  /** A document saved by one model is not found as an instance of a model with another name. */
  lemma FindChecksType(st: StoreState, fields: Doc, name: string, other: string, fault: Option<StoreError>, uuid: string)
    requires other != name
    requires SaveSpec(st, fields, name, fault, uuid).done
    ensures var o := SaveSpec(st, fields, name, fault, uuid);
            var k := KeyField(fields, "_id").GetOr(uuid);
            FindSpec(o.store, k, other, None).1 == WrongType(Str(k))
  {
    var o := SaveSpec(st, fields, name, fault, uuid);
    var k := KeyField(fields, "_id").GetOr(uuid);
    assert o.store.docs[k]["type"] == Str(name);
  }

  // ----- destroy -----

  /** `destroy`: removes the document named by the instance's `id` field (not `_id`). */
  function DestroySpec(st: StoreState, fields: Doc, fault: Option<StoreError>): (o: (StoreState, bool))
    ensures o.0.log == st.log + [RemoveOp(KeyField(fields, "id"))]
    ensures o.1 <==> fault.None? && KeyField(fields, "id").Some? && KeyField(fields, "id").value in st.docs
    ensures o.1 ==> o.0.docs == st.docs - {KeyField(fields, "id").value}
    ensures !o.1 ==> o.0.docs == st.docs
  {
    var (st1, r) := RemoveStep(st, KeyField(fields, "id"), fault);
    (st1, r.Ok?)
  }

  /**
    An instance that carries its key only in `_id`, as every saved instance
    does, cannot be destroyed: the removal asks for `id`, which it lacks.
  */
  lemma DestroyNeedsId(st: StoreState, fields: Doc, fault: Option<StoreError>)
    requires "id" !in fields
    ensures var o := DestroySpec(st, fields, fault);
            !o.1 && o.0.docs == st.docs
  {
  }

  // ----- clear and update -----

  /** `clear`: every own field except `_id` and `_rev` deleted. */
  function ClearFields(fields: Doc): (r: Doc)
    ensures forall k :: k in r <==> k in fields && (k == "_id" || k == "_rev")
    ensures forall k :: k in r ==> r[k] == fields[k]
  {
    map k | k in fields && (k == "_id" || k == "_rev") :: fields[k]
  }

  /** Clearing an instance twice is clearing it once. */
  lemma ClearIdempotent(fields: Doc)
    ensures ClearFields(ClearFields(fields)) == ClearFields(fields)
  {
  }

  /** `update(hash)`: every own field of `hash` copied onto the instance. */
  function UpdateFields(fields: Doc, hash: Doc): (r: Doc)
    ensures forall k :: k in r <==> k in fields || k in hash
    ensures forall k :: k in hash ==> r[k] == hash[k]
    ensures forall k :: k in fields && k !in hash ==> r[k] == fields[k]
  {
    fields + hash
  }

  // ----- deepUpdate -----

  /**
    The new value of one field under `deepUpdate`: an object in the source is
    merged into the target's field, or into a fresh `{}` when that field is
    absent or falsy; any other source value replaces the field. A truthy
    target that is not an object (a number, a string, an array) swallows the
    writes and keeps its value.
  */
  function MergeField(sv: Json, tv: Option<Json>): Json
    decreases sv, 1
  {
    if sv.Obj? then
      var base := if tv.Some? && Truthy(tv.value) then tv.value else Obj(map[]);
      if base.Obj? then Obj(DeepMerge(sv.fields, base.fields)) else base
    else sv
  }

  /** `recurse(source, target)`: every field of the source merged into the target. */
  function DeepMerge(source: Doc, target: Doc): (r: Doc)
    decreases Obj(source), 0
    ensures forall k :: k in r <==> k in source || k in target
    ensures forall k :: k in target && k !in source ==> r[k] == target[k]
  {
    map k | k in source.Keys + target.Keys ::
      if k in source then MergeField(source[k], if k in target then Some(target[k]) else None) else target[k]
  }

  /** The lookup `target[k]` as an optional value. */
  function Get(m: Doc, k: string): Option<Json> {
    if k in m then Some(m[k]) else None
  }

  /** Whether a value has an object anywhere at its top level (`deepUpdate` recurses only into those). */
  predicate HasNestedObject(source: Doc) {
    exists k :: k in source && source[k].Obj?
  }

  /** Without nested objects in the source, `deepUpdate` is `update`. */
  lemma DeepMergeFlat(source: Doc, target: Doc)
    requires !HasNestedObject(source)
    ensures DeepMerge(source, target) == UpdateFields(target, source)
  {
  }

  /** Merging into an empty target copies the source. */
  lemma {:induction false} DeepMergeIntoEmpty(source: Doc)
    ensures DeepMerge(source, map[]) == source
    decreases Obj(source)
  {
    forall k | k in source ensures DeepMerge(source, map[])[k] == source[k] {
      if source[k].Obj? {
        DeepMergeIntoEmpty(source[k].fields);
      }
    }
  }

  /**
    Field by field: an object in the source is merged into the target's
    object, or copied when the target lacks the field; any other source
    value replaces the field whole.
  */
  lemma DeepMergeFields(source: Doc, target: Doc, k: string)
    requires k in source
    ensures !source[k].Obj? ==> DeepMerge(source, target)[k] == source[k]
    ensures source[k].Obj? && k !in target ==> DeepMerge(source, target)[k] == source[k]
    ensures source[k].Obj? && k in target && target[k].Obj? ==>
              DeepMerge(source, target)[k] == Obj(DeepMerge(source[k].fields, target[k].fields))
  {
    if source[k].Obj? && k !in target {
      DeepMergeIntoEmpty(source[k].fields);
    }
  }

  lemma {:induction false} MergeFieldIdempotent(sv: Json, tv: Option<Json>)
    ensures MergeField(sv, Some(MergeField(sv, tv))) == MergeField(sv, tv)
    decreases sv, 1
  {
    if sv.Obj? {
      var base := if tv.Some? && Truthy(tv.value) then tv.value else Obj(map[]);
      if base.Obj? {
        DeepMergeIdempotent(sv.fields, base.fields);
      }
    }
  }

  /** Applying the same `deepUpdate` twice is applying it once. */
  lemma {:induction false} DeepMergeIdempotent(source: Doc, target: Doc)
    ensures DeepMerge(source, DeepMerge(source, target)) == DeepMerge(source, target)
    decreases Obj(source), 0
  {
    var once := DeepMerge(source, target);
    forall k | k in source
      ensures DeepMerge(source, once)[k] == once[k]
    {
      MergeFieldIdempotent(source[k], Get(target, k));
    }
  }

  /** A `deepUpdate` example: nested objects merge key by key. */
  lemma DeepMergeObjectExample()
    ensures DeepMerge(map["a" := Obj(map["c" := Num(2)])], map["a" := Obj(map["b" := Num(1)])])
            == map["a" := Obj(map["b" := Num(1), "c" := Num(2)])]
  {
    var inner := DeepMerge(map["c" := Num(2)], map["b" := Num(1)]);
    assert inner == map["b" := Num(1), "c" := Num(2)];
  }

  /** A `deepUpdate` example: an array replaces the field whole. */
  lemma DeepMergeArrayExample()
    ensures DeepMerge(map["a" := Arr([Num(9)])], map["a" := Arr([Num(1), Num(2)])])
            == map["a" := Arr([Num(9)])]
  {
  }

  // ----- design documents -----

  /** One design-document save: the key and the document. */
  datatype Install = Install(key: string, doc: Doc)

  /** The design document of a model: its views after substitution, under `_design/<plural>`. */
  function DesignInstall(plural: string, name: string, vs: Views): Install {
    Install(DesignKey(plural), DesignDoc(SubstituteViews(vs, name)))
  }

  /**
    Saving a design document: no revision is passed, so the driver replaces
    whatever is stored under the key; only a failed request is an error.
  */
  function InstallStep(st: StoreState, inst: Install, fault: Option<StoreError>): (o: (StoreState, bool))
    ensures o.1 <==> fault.None?
    ensures o.0.log == st.log + [SaveOp(Some(inst.key))]
    ensures o.1 ==> o.0.docs == st.docs[inst.key := Stamped(inst.doc, inst.key, Num(st.clock + 1))]
    ensures !o.1 ==> o.0.docs == st.docs
  {
    var (st1, r) := SaveStep(st, Some(inst.key), None, inst.doc, fault, "");
    (st1, r.Ok?)
  }

  /**
    `updateAllDesignDocuments` over a plan of saves, the `i`-th request failing
    with `faults(i)`: each save in turn, stopping at the first error.
  */
  function InstallAll(st: StoreState, plan: seq<Install>, faults: nat -> Option<StoreError>, i: nat): (StoreState, bool)
    decreases |plan|
  {
    if plan == [] then (st, true)
    else
      var (st1, ok) := InstallStep(st, plan[0], faults(i));
      if !ok then (st1, false) else InstallAll(st1, plan[1..], faults, i + 1)
  }

  /** How many saves a run of `InstallAll` requests: up to and including the first failing one. */
  function Attempts(plan: seq<Install>, faults: nat -> Option<StoreError>, i: nat): (a: nat)
    ensures a <= |plan|
    ensures plan != [] ==> a > 0
    ensures forall j :: i <= j < i + a - 1 ==> faults(j).None?
    ensures a < |plan| ==> a > 0 && faults(i + a - 1).Some?
    decreases |plan|
  {
    if plan == [] then 0
    else if faults(i).Some? then 1
    else 1 + Attempts(plan[1..], faults, i + 1)
  }

  /** The store requests a run of saves sends. */
  function SaveOps(plan: seq<Install>): (ops: seq<Op>)
    ensures |ops| == |plan|
    ensures forall j :: 0 <= j < |plan| ==> ops[j] == SaveOp(Some(plan[j].key))
  {
    if plan == [] then [] else [SaveOp(Some(plan[0].key))] + SaveOps(plan[1..])
  }

  /** The batch installer reports success exactly when no request failed. */
  lemma {:induction false} InstallAllOk(st: StoreState, plan: seq<Install>, faults: nat -> Option<StoreError>, i: nat)
    ensures InstallAll(st, plan, faults, i).1 <==> forall j :: i <= j < i + |plan| ==> faults(j).None?
    decreases |plan|
  {
    if plan != [] {
      var (st1, ok) := InstallStep(st, plan[0], faults(i));
      if ok {
        InstallAllOk(st1, plan[1..], faults, i + 1);
      }
    }
  }

  lemma ConcatAssoc<T>(a: seq<T>, b: seq<T>, c: seq<T>)
    ensures a + b + c == a + (b + c)
  {
  }

  lemma SaveOpsCons(plan: seq<Install>, a: nat)
    requires 0 < a <= |plan|
    ensures SaveOps(plan[..a]) == [SaveOp(Some(plan[0].key))] + SaveOps(plan[1..][..a - 1])
  {
    assert plan[..a] == [plan[0]] + plan[1..][..a - 1];
  }

  /** It sends one save per attempted entry, in plan order, and none after the first failure. */
  lemma {:induction false} InstallAllLog(st: StoreState, plan: seq<Install>, faults: nat -> Option<StoreError>, i: nat)
    ensures InstallAll(st, plan, faults, i).0.log == st.log + SaveOps(plan[..Attempts(plan, faults, i)])
    decreases |plan|
  {
    if plan == [] {
      assert plan[..0] == [];
    } else {
      var step := InstallStep(st, plan[0], faults(i));
      if step.1 {
        var rest := plan[1..];
        InstallAllLog(step.0, rest, faults, i + 1);
        var a := Attempts(rest, faults, i + 1);
        assert Attempts(plan, faults, i) == a + 1;
        assert InstallAll(st, plan, faults, i) == InstallAll(step.0, rest, faults, i + 1);
        SaveOpsCons(plan, a + 1);
        var op := SaveOp(Some(plan[0].key));
        var mid := SaveOps(rest[..a]);
        assert step.0.log == st.log + [op];
        assert InstallAll(st, plan, faults, i).0.log == step.0.log + mid;
        ConcatAssoc(st.log, [op], mid);
      } else {
        assert Attempts(plan, faults, i) == 1;
        SaveOpsCons(plan, 1);
      }
    }
  }

  /** Saving never deletes: every stored key is still stored afterwards. */
  lemma {:induction false} InstallAllKeeps(st: StoreState, plan: seq<Install>, faults: nat -> Option<StoreError>, i: nat, k: string)
    requires k in st.docs
    ensures k in InstallAll(st, plan, faults, i).0.docs
    decreases |plan|
  {
    if plan != [] {
      var step := InstallStep(st, plan[0], faults(i));
      if step.1 {
        InstallAllKeeps(step.0, plan[1..], faults, i + 1, k);
      }
    }
  }

  /** Keys it did not reach keep their documents. */
  lemma {:induction false} InstallAllFrame(st: StoreState, plan: seq<Install>, faults: nat -> Option<StoreError>, i: nat, k: string)
    requires forall j :: 0 <= j < Attempts(plan, faults, i) ==> plan[j].key != k
    ensures var st1 := InstallAll(st, plan, faults, i).0;
            (k in st1.docs <==> k in st.docs) && (k in st.docs ==> st1.docs[k] == st.docs[k])
    decreases |plan|
  {
    if plan != [] {
      var (st1, ok) := InstallStep(st, plan[0], faults(i));
      if ok {
        assert forall j :: 0 <= j < Attempts(plan[1..], faults, i + 1) ==> plan[1..][j] == plan[j + 1];
        InstallAllFrame(st1, plan[1..], faults, i + 1, k);
      }
    }
  }

  /** After a success every planned key holds a document. */
  lemma {:induction false} InstallAllStores(st: StoreState, plan: seq<Install>, faults: nat -> Option<StoreError>, i: nat)
    requires InstallAll(st, plan, faults, i).1
    ensures forall j :: 0 <= j < |plan| ==> plan[j].key in InstallAll(st, plan, faults, i).0.docs
    decreases |plan|
  {
    if plan != [] {
      var step := InstallStep(st, plan[0], faults(i));
      var rest := plan[1..];
      assert InstallAll(st, plan, faults, i) == InstallAll(step.0, rest, faults, i + 1);
      InstallAllStores(step.0, rest, faults, i + 1);
      InstallAllKeeps(step.0, rest, faults, i + 1, plan[0].key);
      assert forall j :: 0 < j < |plan| ==> plan[j] == rest[j - 1];
    }
  }

  /** One step of the installer, as the loop that carries it out sees it. */
  lemma InstallAllUnfold(st: StoreState, plan: seq<Install>, faults: nat -> Option<StoreError>, i: nat)
    requires plan != []
    ensures var step := InstallStep(st, plan[0], faults(i));
            && (step.1 ==> InstallAll(st, plan, faults, i) == InstallAll(step.0, plan[1..], faults, i + 1))
            && (step.1 ==> Attempts(plan, faults, i) == 1 + Attempts(plan[1..], faults, i + 1))
            && (!step.1 ==> InstallAll(st, plan, faults, i) == step && Attempts(plan, faults, i) == 1)
  {
  }

  /** What a design-document install needs of a model: its plural name, its name and its views. */
  datatype ModelSnapshot = ModelSnapshot(plural: string, name: string, views: Views)

  /** The design-document saves for a list of models, popped from its end: the last one first. */
  function PlanOf(ms: seq<ModelSnapshot>): (p: seq<Install>)
    ensures |p| == |ms|
  {
    if ms == [] then []
    else
      var m := ms[|ms| - 1];
      [DesignInstall(m.plural, m.name, m.views)] + PlanOf(ms[..|ms| - 1])
  }

  /** The model registered last is installed first, and every model exactly once. */
  lemma {:induction false} PlanOfOrder(ms: seq<ModelSnapshot>, j: nat)
    requires j < |ms|
    ensures PlanOf(ms)[j] == DesignInstall(ms[|ms| - 1 - j].plural, ms[|ms| - 1 - j].name, ms[|ms| - 1 - j].views)
    decreases |ms|
  {
    if j > 0 {
      PlanOfOrder(ms[..|ms| - 1], j - 1);
    }
  }

  /**
    `ms` once the models from index `k` on have had their views substituted:
    those are the ones the installer has already popped.
  */
  function Progress(ms: seq<ModelSnapshot>, k: int): (r: seq<ModelSnapshot>)
    ensures |r| == |ms|
    ensures forall j {:trigger r[j]} :: 0 <= j < |ms| ==>
              r[j] == if j < k then ms[j] else ms[j].(views := SubstituteViews(ms[j].views, ms[j].name))
  {
    seq(|ms|, j requires 0 <= j < |ms| =>
      if j < k then ms[j] else ms[j].(views := SubstituteViews(ms[j].views, ms[j].name)))
  }

  /** `after` is `before` with the views of its last `a` models substituted. */
  ghost predicate Popped(before: seq<ModelSnapshot>, after: seq<ModelSnapshot>, a: int) {
    after == Progress(before, |before| - a)
  }

  /** Installing the last model of a list, then the rest. */
  lemma InstallNext(st: StoreState, ms: seq<ModelSnapshot>, faults: nat -> Option<StoreError>, n: nat)
    requires ms != []
    ensures var last := ms[|ms| - 1];
            var step := InstallStep(st, DesignInstall(last.plural, last.name, last.views), faults(n));
            var plan := PlanOf(ms);
            var rest := PlanOf(ms[..|ms| - 1]);
            && (step.1 ==> InstallAll(st, plan, faults, n) == InstallAll(step.0, rest, faults, n + 1))
            && (step.1 ==> Attempts(plan, faults, n) == 1 + Attempts(rest, faults, n + 1))
            && (!step.1 ==> InstallAll(st, plan, faults, n) == step && Attempts(plan, faults, n) == 1)
  {
    InstallAllUnfold(st, PlanOf(ms), faults, n);
  }

  /** Popping the last model and failing: only it is substituted. */
  lemma PoppedFirst(ms: seq<ModelSnapshot>)
    requires ms != []
    ensures var last := ms[|ms| - 1];
            Popped(ms, ms[..|ms| - 1] + [last.(views := SubstituteViews(last.views, last.name))], 1)
  {
    ProgressSnoc(ms, |ms| - 1);
    ProgressNone(ms[..|ms| - 1]);
  }

  /** Popping the last model and going on with the rest. */
  lemma PoppedSnoc(ms: seq<ModelSnapshot>, after: seq<ModelSnapshot>, a: nat)
    requires ms != [] && a <= |ms| - 1 && Popped(ms[..|ms| - 1], after, a)
    ensures var last := ms[|ms| - 1];
            Popped(ms, after + [last.(views := SubstituteViews(last.views, last.name))], a + 1)
  {
    ProgressSnoc(ms, |ms| - 1 - a);
  }

  /** Before the installer has popped anything, nothing is substituted. */
  lemma ProgressNone(ms: seq<ModelSnapshot>)
    ensures Progress(ms, |ms|) == ms
  {
  }

  /** Progress over a list split off its last model, which is already substituted. */
  lemma ProgressSnoc(ms: seq<ModelSnapshot>, k: int)
    requires ms != [] && k < |ms|
    ensures var last := ms[|ms| - 1];
            Progress(ms, k) == Progress(ms[..|ms| - 1], k) + [last.(views := SubstituteViews(last.views, last.name))]
  {
    var last := ms[|ms| - 1];
    var lhs := Progress(ms, k);
    var rhs := Progress(ms[..|ms| - 1], k) + [last.(views := SubstituteViews(last.views, last.name))];
    forall j | 0 <= j < |ms|
      ensures lhs[j] == rhs[j]
    {
      if j < |ms| - 1 {
        assert rhs[j] == Progress(ms[..|ms| - 1], k)[j];
      }
    }
  }

  /** The installer-relevant state of a list of models. */
  function Snapshot(ms: seq<Model>): (r: seq<ModelSnapshot>)
    reads set m | m in ms
    ensures |r| == |ms|
    ensures forall j {:trigger r[j]} :: 0 <= j < |ms| ==> r[j] == ModelSnapshot(ms[j].pluralName, ms[j].name, ms[j].views)
  {
    if ms == [] then []
    else
      var m := ms[|ms| - 1];
      Snapshot(ms[..|ms| - 1]) + [ModelSnapshot(m.pluralName, m.name, m.views)]
  }

  /** The snapshot of a list with its last model popped. */
  lemma SnapshotPop(ms: seq<Model>)
    requires ms != []
    ensures Snapshot(ms)[..|ms| - 1] == Snapshot(ms[..|ms| - 1])
  {
  }

  /** A list of models none of which changed has the snapshot it had. */
  twostate lemma SnapshotUnchanged(ms: seq<Model>)
    requires forall j :: 0 <= j < |ms| ==> unchanged(ms[j])
    ensures Snapshot(ms) == old(Snapshot(ms))
  {
    assert forall j :: 0 <= j < |ms| ==> Snapshot(ms)[j] == old(Snapshot(ms))[j];
  }

  // ----- the objects -----

  /**
    The module state of lib/models/base.js: the store handed to `init` and the
    list of registered models. Pluralisation lives in a helper library that is
    not part of this model; it is a parameter.
  */
  class Registry {
    var couch: CouchDb?
    var resources: seq<Model>
    const pluralize: string -> string

    /** Every registered model belongs to this registry, and none is registered twice. */
    ghost predicate Valid()
      reads this
    {
      Owned(resources)
    }

    /** Each model of `ms` belongs to this registry and occurs in `ms` once. */
    ghost predicate Owned(ms: seq<Model>) {
      ms == [] || (ms[|ms| - 1].registry == this && ms[|ms| - 1] !in ms[..|ms| - 1] && Owned(ms[..|ms| - 1]))
    }

    constructor (pluralize: string -> string)
      ensures couch == null && resources == [] && this.pluralize == pluralize
      ensures Valid()
    {
      couch := null;
      resources := [];
      this.pluralize := pluralize;
    }

    /** `init(couchdb)`: the store every model talks to from now on. */
    method Init(db: CouchDb)
      modifies this
      ensures couch == db && resources == old(resources)
    {
      couch := db;
    }

    /** `register(model)`: builds the model from its configuration and appends it. */
    method Register(name: string, config: Option<Views>) returns (m: Model)
      requires Valid()
      requires config.Some? ==> DistinctNames(config.value)
      modifies this
      ensures Valid()
      ensures fresh(m) && m.registry == this && m.name == name
      ensures m.pluralName == pluralize(name) && m.views == MergeViews(config)
      ensures resources == old(resources) + [m] && couch == old(couch)
    {
      m := new Model(this, name, config);
      resources := resources + [m];
    }

    /**
      `updateAllDesignDocuments`: takes a copy of the registered models and
      installs each model's design document, popping them from the end of
      the copy and stopping at the first failure; `faults(n)` is the outcome
      of the `n`-th request. The registry itself is not changed; the models
      that were popped have their views substituted.
    */
    method UpdateAllDesignDocuments(faults: nat -> Option<StoreError>) returns (ok: bool)
      requires Valid() && couch != null
      modifies couch, set m | m in resources
      ensures resources == old(resources) && couch == old(couch)
      ensures (couch.State(), ok) == old(InstallAll(couch.State(), PlanOf(Snapshot(resources)), faults, 0))
      ensures Popped(old(Snapshot(resources)), Snapshot(resources), old(Attempts(PlanOf(Snapshot(resources)), faults, 0)))
    {
      ok := DoNext(resources, faults, 0);
    }

    /**
      `doNext`: installs the last model of `stillToIterate` and, if that
      worked, goes on with the rest; `n` counts the requests sent so far.
    */
    method DoNext(stillToIterate: seq<Model>, faults: nat -> Option<StoreError>, n: nat) returns (ok: bool)
      requires couch != null && Owned(stillToIterate)
      modifies couch, set m | m in stillToIterate
      ensures (couch.State(), ok) == old(InstallAll(couch.State(), PlanOf(Snapshot(stillToIterate)), faults, n))
      ensures Popped(old(Snapshot(stillToIterate)), Snapshot(stillToIterate),
                     old(Attempts(PlanOf(Snapshot(stillToIterate)), faults, n)))
      decreases |stillToIterate|
    {
      if stillToIterate == [] {
        ok := true;
        return;
      }
      var rest := stillToIterate[..|stillToIterate| - 1];
      var r := stillToIterate[|stillToIterate| - 1];
      ghost var s0 := Snapshot(stillToIterate);
      SnapshotPop(stillToIterate);
      InstallNext(couch.State(), s0, faults, n);
      ok := r.UpdateDesignDocuments(faults(n));
      SnapshotUnchanged(rest);
      if !ok {
        PoppedFirst(s0);
        return;
      }
      ok := DoNext(rest, faults, n + 1);
      PoppedSnoc(s0, Snapshot(rest), Attempts(PlanOf(s0[..|s0| - 1]), faults, n + 1));
    }
  }

  /**
    A model (the object `Base` decorates): its name, its plural used in store
    paths, and its views (the built-in "all" plus the configured ones), which
    `updateDesignDocuments` rewrites in place.
  */
  class Model {
    const registry: Registry
    const name: string
    const pluralName: string
    var views: Views

    /** `Base.apply(model)`: the plural name and `localviews` built from the configuration. */
    constructor (registry: Registry, name: string, config: Option<Views>)
      requires config.Some? ==> DistinctNames(config.value)
      ensures this.registry == registry && this.name == name
      ensures pluralName == registry.pluralize(name) && views == MergeViews(config)
    {
      this.registry := registry;
      this.name := name;
      this.pluralName := registry.pluralize(name);
      var local: Views := [("all", AllView)];
      var cfg := config.GetOr([]);
      for i := 0 to |cfg|
        invariant MergeInto(local, cfg[i..]) == MergeViews(config)
      {
        assert cfg[i..][1..] == cfg[i + 1..];
        local := Assign(local, cfg[i].0, cfg[i].1);
      }
      assert cfg[|cfg|..] == [];
      views := local;
    }

    /** `newInstance(bare)`: an instance over the given fields, or over `{}`. */
    method NewInstance(bare: Option<Doc>) returns (inst: Instance)
      ensures fresh(inst) && inst.model == this && inst.fields == bare.GetOr(map[])
    {
      inst := new Instance(this, bare.GetOr(map[]));
    }

    /**
      The wrapper of the view `viewName`: the options normalised, one query to
      `<plural>/<viewName>`, and every row of a successful reply wrapped as an
      instance, in order; a failed reply is passed on.
    */
    method Query(viewName: string, arg: Option<Json>, reply: Result<seq<Doc>>) returns (r: Result<seq<Instance>>)
      requires registry.couch != null
      requires ViewDefs.Find(views, viewName).Some?
      modifies registry.couch
      ensures registry.couch.State() ==
                ViewStep(old(registry.couch.State()), ViewPath(pluralName, viewName), NormalizeOptions(arg), reply).0
      ensures r.Err? <==> reply.Err?
      ensures r.Err? ==> r.error == reply.error
      ensures r.Ok? ==> |r.value| == |reply.value|
      ensures r.Ok? ==> forall j :: 0 <= j < |r.value| ==>
                fresh(r.value[j]) && r.value[j].model == this && r.value[j].fields == reply.value[j]
    {
      var options := NormalizeOptions(arg);
      var res := registry.couch.View(ViewPath(pluralName, viewName), options, reply);
      if res.Err? {
        r := Err(res.error);
        return;
      }
      var rows := res.value;
      var instances: seq<Instance> := [];
      ghost var after := registry.couch.State();
      for i := 0 to |rows|
        invariant registry.couch.State() == after
        invariant |instances| == i
        invariant forall j :: 0 <= j < i ==>
                    fresh(instances[j]) && instances[j].model == this && instances[j].fields == rows[j]
      {
        var inst := NewInstance(Some(rows[i]));
        instances := instances + [inst];
      }
      r := Ok(instances);
    }

    /**
      `updateDesignDocuments`: every view's placeholder replaced in place,
      then the views saved as the design document `_design/<plural>`.
    */
    method UpdateDesignDocuments(fault: Option<StoreError>) returns (ok: bool)
      requires registry.couch != null
      modifies this, registry.couch
      ensures views == SubstituteViews(old(views), name)
      ensures (registry.couch.State(), ok) ==
                InstallStep(old(registry.couch.State()), DesignInstall(pluralName, name, old(views)), fault)
    {
      var quoted := Quoted(name);
      for i := 0 to |views|
        invariant registry.couch.State() == old(registry.couch.State())
        invariant |views| == |old(views)|
        invariant forall j :: 0 <= j < i ==> views[j] == (old(views)[j].0, SubstituteView(old(views)[j].1, name))
        invariant forall j :: i <= j < |views| ==> views[j] == old(views)[j]
      {
        var (viewName, v) := views[i];
        var mapSrc := v.mapSrc;
        if mapSrc.Some? {
          mapSrc := Some(ReplaceAll(mapSrc.value, Placeholder, quoted));
        }
        var reduceSrc := v.reduceSrc;
        if reduceSrc.Some? {
          reduceSrc := Some(ReplaceAll(mapSrc.GetOr("undefined"), Placeholder, quoted));
        }
        views := views[i := (viewName, View(mapSrc, reduceSrc))];
      }
      var r := registry.couch.Save(Some(DesignKey(pluralName)), None, DesignDoc(views), fault, "");
      ok := r.Ok?;
    }

    /**
      `find(id)`: one `get`; a document of this model comes back as a new
      instance over it, every other reply as the classification alone.
    */
    method Find(id: string, fault: Option<StoreError>) returns (l: Lookup, inst: Instance?)
      requires registry.couch != null
      modifies registry.couch
      ensures (registry.couch.State(), l) == FindSpec(old(registry.couch.State()), id, name, fault)
      ensures inst != null <==> l.Found?
      ensures inst != null ==> fresh(inst) && inst.model == this && inst.fields == l.doc
    {
      var reply := registry.couch.Get(id, fault);
      l := ClassifyFind(reply, name);
      inst := null;
      if l.Found? {
        inst := NewInstance(Some(l.doc));
      }
    }
  }

  /** An instance: the own fields of a model's record, changed in place by its methods. */
  class Instance {
    const model: Model
    var fields: Doc

    constructor (model: Model, fields: Doc)
      ensures this.model == model && this.fields == fields
    {
      this.model := model;
      this.fields := fields;
    }

    /** `save`: see SaveSpec; the new store state and fields are exactly what it describes. */
    method Save(fault: Option<StoreError>, uuid: string) returns (done: bool)
      requires model.registry.couch != null
      modifies this, model.registry.couch
      ensures var o := SaveSpec(old(model.registry.couch.State()), old(fields), model.name, fault, uuid);
              model.registry.couch.State() == o.store && fields == o.fields && done == o.done
    {
      var saveHash := CopyFields(fields);
      saveHash := saveHash["type" := Str(model.name)];
      var r := model.registry.couch.Save(KeyField(fields, "_id"), RevField(fields), saveHash, fault, uuid);
      if r.Ok? {
        fields := fields["_id" := Str(r.value.0)];
        fields := fields["_rev" := r.value.1];
        done := true;
      } else {
        done := false;
      }
    }

    /** `destroy`: removes the document named by `id`; the instance itself is unchanged. */
    method Destroy(fault: Option<StoreError>) returns (done: bool)
      requires model.registry.couch != null
      modifies model.registry.couch
      ensures (model.registry.couch.State(), done) == DestroySpec(old(model.registry.couch.State()), fields, fault)
    {
      var r := model.registry.couch.Remove(KeyField(fields, "id"), fault);
      done := r.Ok?;
    }

    /** `clear`: deletes, one at a time, every own field except `_id` and `_rev`. */
    method Clear()
      modifies this
      ensures fields == ClearFields(old(fields))
    {
      var toVisit := fields.Keys;
      while toVisit != {}
        invariant toVisit <= old(fields).Keys
        invariant forall k :: k in fields <==> k in old(fields) && (k in toVisit || k == "_id" || k == "_rev")
        invariant forall k :: k in fields ==> fields[k] == old(fields)[k]
        decreases toVisit
      {
        var property :| property in toVisit;
        if !(property == "_rev" || property == "_id") {
          fields := fields - {property};
        }
        toVisit := toVisit - {property};
      }
    }

    /** `update(hash)`: copies every field of `hash`, warning when `_id` is among them. */
    method Update(hash: Doc) returns (warned: bool)
      modifies this
      ensures fields == UpdateFields(old(fields), hash)
      ensures warned <==> "_id" in hash
    {
      var toVisit := hash.Keys;
      warned := false;
      while toVisit != {}
        invariant toVisit <= hash.Keys
        invariant forall k :: k in fields <==> k in old(fields) || (k in hash && k !in toVisit)
        invariant forall k :: k in fields ==>
                    fields[k] == if k in hash && k !in toVisit then hash[k] else old(fields)[k]
        invariant warned <==> "_id" in hash && "_id" !in toVisit
        decreases toVisit
      {
        var property :| property in toVisit;
        if property == "_id" {
          warned := true;
        }
        fields := fields[property := hash[property]];
        toVisit := toVisit - {property};
      }
    }

    /** `deepUpdate(hash)`: the recursive merge of `hash` into the instance's fields. */
    method DeepUpdate(hash: Doc)
      modifies this
      ensures fields == DeepMerge(hash, old(fields))
    {
      fields := MergeObject(hash, fields);
    }
  }

  /** The copy loop at the start of `save`: every own field, one at a time. */
  method CopyFields(source: Doc) returns (copy: Doc)
    ensures copy == source
  {
    copy := map[];
    var toVisit := source.Keys;
    while toVisit != {}
      invariant toVisit <= source.Keys
      invariant forall k :: k in copy <==> k in source && k !in toVisit
      invariant forall k :: k in copy ==> copy[k] == source[k]
      decreases toVisit
    {
      var property :| property in toVisit;
      copy := copy[property := source[property]];
      toVisit := toVisit - {property};
    }
  }

  /**
    `recurse(source, target)` of `deepUpdate`, one field at a time: an object
    is merged recursively into the target's field (a fresh `{}` when that is
    absent or falsy), anything else overwrites it.
  */
  method MergeObject(source: Doc, target: Doc) returns (merged: Doc)
    ensures merged == DeepMerge(source, target)
    decreases Obj(source)
  {
    merged := target;
    var toVisit := source.Keys;
    while toVisit != {}
      invariant toVisit <= source.Keys
      invariant forall k :: k in merged <==> k in target || (k in source && k !in toVisit)
      invariant forall k :: k in merged ==>
                  merged[k] == if k in source && k !in toVisit then MergeField(source[k], Get(target, k)) else target[k]
      decreases toVisit
    {
      var property :| property in toVisit;
      if source[property].Obj? {
        var current := if property in merged && Truthy(merged[property]) then merged[property] else Obj(map[]);
        if current.Obj? {
          var inner := MergeObject(source[property].fields, current.fields);
          merged := merged[property := Obj(inner)];
        } else {
          merged := merged[property := current];
        }
      } else {
        merged := merged[property := source[property]];
      }
      toVisit := toVisit - {property};
    }
  }
}
