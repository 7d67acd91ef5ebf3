/**
  The pure parts of the model layer in lib/models/base.js: a model's views
  (the built-in "all" view merged with the configured ones), the
  `$MODEL_NAME` substitution that turns them into a design document, the
  normalisation of a view query's options, and the path a query is sent to.
*/
module ViewDefs {
  import opened Wrappers
  import opened JsonDoc

  /** A view: the source text of its map and reduce steps, each possibly undefined. */
  datatype View = View(mapSrc: Option<string>, reduceSrc: Option<string>)

  /** A JavaScript object of views: its own properties in enumeration order. */
  type Views = seq<(string, View)>

  const Placeholder: string := "$MODEL_NAME"

  /** The text of the built-in "all" view's map step around its placeholder. */
  const AllMapHead: string := "function(doc) { if(doc[\"type\"] === "
  const AllMapTail: string := ") { emit(doc[\"_id\"], doc); } }"

  /** The built-in view: every document whose `type` is the model name. */
  const AllView: View := View(Some(AllMapHead + Placeholder + AllMapTail), None)

  function Names(vs: Views): (ns: seq<string>)
    ensures |ns| == |vs|
    ensures forall i :: 0 <= i < |vs| ==> ns[i] == vs[i].0
  {
    if vs == [] then [] else [vs[0].0] + Names(vs[1..])
  }

  /** No name occurs twice: true of every JavaScript object. */
  predicate DistinctNames(vs: Views) {
    forall i, j :: 0 <= i < j < |vs| ==> vs[i].0 != vs[j].0
  }

  /** `vs[name]`, or None when the object has no such property. */
  function Find(vs: Views, name: string): Option<View> {
    if vs == [] then None
    else if vs[0].0 == name then Some(vs[0].1)
    else Find(vs[1..], name)
  }

  /** `vs[name] = v`: an existing property keeps its place, a new one is appended. */
  function Assign(vs: Views, name: string, v: View): Views {
    if vs == [] then [(name, v)]
    else if vs[0].0 == name then [(name, v)] + vs[1..]
    else [vs[0]] + Assign(vs[1..], name, v)
  }

  /** The `for ... in config.views` loop: each configured view assigned in turn. */
  function MergeInto(vs: Views, config: Views): Views
    decreases |config|
  {
    if config == [] then vs
    else MergeInto(Assign(vs, config[0].0, config[0].1), config[1..])
  }

  /** `localviews`: the built-in "all" view, then every configured view (absent config: none). */
  function MergeViews(config: Option<Views>): Views {
    MergeInto([("all", AllView)], config.GetOr([]))
  }

  lemma {:induction false} FindNames(vs: Views, name: string)
    ensures Find(vs, name).Some? <==> name in Names(vs)
  {
    if vs != [] {
      FindNames(vs[1..], name);
      assert Names(vs) == [vs[0].0] + Names(vs[1..]);
    }
  }

  /** Assignment sets one property and keeps the others. */
  lemma {:induction false} AssignFind(vs: Views, name: string, v: View, k: string)
    ensures Find(Assign(vs, name, v), k) == if k == name then Some(v) else Find(vs, k)
  {
    if vs != [] && vs[0].0 != name {
      AssignFind(vs[1..], name, v, k);
    }
  }

  /** An existing name keeps its place; a new one goes last. */
  lemma {:induction false} AssignNames(vs: Views, name: string, v: View)
    ensures Names(Assign(vs, name, v)) == if name in Names(vs) then Names(vs) else Names(vs) + [name]
  {
    if vs != [] {
      assert Names(vs) == [vs[0].0] + Names(vs[1..]);
      if vs[0].0 != name {
        AssignNames(vs[1..], name, v);
        assert Names(Assign(vs, name, v)) == [vs[0].0] + Names(Assign(vs[1..], name, v));
      } else {
        assert Names(Assign(vs, name, v)) == [name] + Names(vs[1..]);
      }
    }
  }

  /** Assignment sets one property, keeps the others, and keeps the names distinct. */
  lemma AssignSpec(vs: Views, name: string, v: View)
    ensures forall k :: Find(Assign(vs, name, v), k) == if k == name then Some(v) else Find(vs, k)
    ensures Names(Assign(vs, name, v)) == if name in Names(vs) then Names(vs) else Names(vs) + [name]
    ensures DistinctNames(vs) ==> DistinctNames(Assign(vs, name, v))
  {
    forall k {
      AssignFind(vs, name, v, k);
    }
    AssignNames(vs, name, v);
    var r := Assign(vs, name, v);
    assert forall i :: 0 <= i < |r| ==> r[i].0 == Names(r)[i];
    assert forall i :: 0 <= i < |vs| ==> vs[i].0 == Names(vs)[i];
  }


  /** Merging configured views: each configured name takes its configured view, the others keep theirs. */
  lemma {:induction false} MergeIntoSpec(vs: Views, config: Views)
    requires DistinctNames(config)
    ensures forall k :: Find(MergeInto(vs, config), k) ==
                        (if Find(config, k).Some? then Find(config, k) else Find(vs, k))
    ensures DistinctNames(vs) ==> DistinctNames(MergeInto(vs, config))
    ensures |Names(MergeInto(vs, config))| >= |vs|
    ensures Names(MergeInto(vs, config))[..|vs|] == Names(vs)
    decreases |config|
  {
    if config != [] {
      var (n, v) := config[0];
      var next := Assign(vs, n, v);
      AssignSpec(vs, n, v);
      assert DistinctNames(config[1..]);
      MergeIntoSpec(next, config[1..]);
      assert Names(next)[..|vs|] == Names(vs);
      forall k ensures Find(MergeInto(vs, config), k) ==
        if Find(config, k).Some? then Find(config, k) else Find(vs, k)
      {
        if k == n {
          forall m | 0 <= m < |config[1..]| ensures Names(config[1..])[m] != n {
            assert config[m + 1].0 != config[0].0;
          }
          FindNames(config[1..], k);
        }
      }
    }
  }

  /**
    `localviews` holds "all" first and then every configured view: a
    configured view of any name, "all" included, is the one that counts.
  */
  lemma MergeViewsSpec(config: Option<Views>)
    requires config.Some? ==> DistinctNames(config.value)
    ensures DistinctNames(MergeViews(config))
    ensures |MergeViews(config)| > 0 && MergeViews(config)[0].0 == "all"
    ensures forall k :: Find(MergeViews(config), k) ==
                        (if config.Some? && Find(config.value, k).Some? then Find(config.value, k)
                         else if k == "all" then Some(AllView)
                         else None)
  {
    var base: Views := [("all", AllView)];
    assert base[1..] == [];
    assert forall k :: Find(base, k) == if k == "all" then Some(AllView) else None;
    assert config.None? ==> forall k :: Find(config.GetOr([]), k).None?;
    MergeIntoSpec(base, config.GetOr([]));
    assert Names(base) == ["all"];
    assert Names(MergeViews(config))[0] == "all";
  }

  /** The path a view query is sent to: the model's plural name, a slash, the view name. */
  function ViewPath(plural: string, name: string): string {
    plural + "/" + name
  }

  /** Different views of one model are queried at different paths. */
  lemma ViewPathInjective(plural: string, a: string, b: string)
    requires ViewPath(plural, a) == ViewPath(plural, b)
    ensures a == b
  {
    assert a == ViewPath(plural, a)[|plural| + 1..];
    assert b == ViewPath(plural, b)[|plural| + 1..];
  }

  /**
    The path a wrapper queries as written: every wrapper closes over the one
    loop variable `view_name`, which holds the last enumerated name once the
    loop is over, whichever wrapper is called.
  */
  function WrapperPathAsWritten(plural: string, vs: Views, name: string): string
    requires |vs| > 0
  {
    plural + "/" + vs[|vs| - 1].0
  }

  /** As written, a model with one configured view "byName" sends its "all" query to "byName". */
  lemma WrappersShareLastName(plural: string, v: View)
    ensures var vs := MergeViews(Some([("byName", v)]));
            && |vs| == 2
            && WrapperPathAsWritten(plural, vs, "all") == ViewPath(plural, "byName")
            && WrapperPathAsWritten(plural, vs, "all") != ViewPath(plural, "all")
  {
    var base: Views := [("all", AllView)];
    var config: Views := [("byName", v)];
    assert config[1..] == [];
    assert Assign(base, "byName", v) == [("all", AllView), ("byName", v)] by {
      assert base[0].0 != "byName";
      assert base[1..] == [];
    }
    var vs := MergeViews(Some(config));
    assert vs == MergeInto(Assign(base, "byName", v), []);
    assert vs == [("all", AllView), ("byName", v)];
    if ViewPath(plural, "byName") == ViewPath(plural, "all") {
      ViewPathInjective(plural, "byName", "all");
    }
  }

  // ----- `$MODEL_NAME` substitution -----

  predicate StartsWith(s: string, p: string) {
    |p| <= |s| && s[..|p|] == p
  }

  /** `s.replace(/pat/g, rep)` for a literal pattern: left to right, matches never overlap. */
  function ReplaceAll(s: string, pat: string, rep: string): string
    requires |pat| > 0
    decreases |s|
  {
    if |s| < |pat| then s
    else if s[..|pat|] == pat then rep + ReplaceAll(s[|pat|..], pat, rep)
    else [s[0]] + ReplaceAll(s[1..], pat, rep)
  }

  /** Text before the first character of the pattern passes through untouched. */
  lemma {:induction false} ReplaceAllSkips(a: string, b: string, pat: string, rep: string)
    requires |pat| > 0 && pat[0] !in a
    ensures ReplaceAll(a + b, pat, rep) == a + ReplaceAll(b, pat, rep)
    decreases |a|
  {
    if a != [] {
      if |a + b| >= |pat| {
        assert (a + b)[0] == a[0] != pat[0];
        assert (a + b)[1..] == a[1..] + b;
      } else {
        assert |b| < |pat|;
      }
      ReplaceAllSkips(a[1..], b, pat, rep);
    } else {
      assert a + b == b;
    }
  }

  /** Text without the pattern's first character has no match and is returned as it is. */
  lemma ReplaceAllNoMatch(s: string, pat: string, rep: string)
    requires |pat| > 0 && pat[0] !in s
    ensures ReplaceAll(s, pat, rep) == s
  {
    ReplaceAllSkips(s, [], pat, rep);
    assert s + [] == s;
  }

  /**
    The replacement cannot start a piece `q` of the pattern that the original
    text did not start with.
  */
  lemma {:induction false} ReplaceAllKeepsNonPrefix(u: string, q: string, pat: string, rep: string)
    requires |pat| > 0 && |rep| > 0 && |q| > 0
    requires rep[0] !in q && pat[0] !in q
    requires !StartsWith(u, q)
    ensures !StartsWith(ReplaceAll(u, pat, rep), q)
    decreases |u|
  {
    if |u| < |pat| {
    } else if u[..|pat|] == pat {
      var r := ReplaceAll(u, pat, rep);
      assert r == rep + ReplaceAll(u[|pat|..], pat, rep);
      assert r[0] == rep[0];
    } else {
      var r := ReplaceAll(u, pat, rep);
      assert r == [u[0]] + ReplaceAll(u[1..], pat, rep);
      assert |q| <= |u| ==> u[..|q|] == [u[0]] + u[1..][..|q| - 1];
      assert |q| <= |r| ==> r[..|q|] == [r[0]] + r[1..][..|q| - 1];
      if u[0] == q[0] && |q| > 1 {
        ReplaceAllKeepsNonPrefix(u[1..], q[1..], pat, rep);
      }
    }
  }

  /**
    Substituting twice is substituting once, provided the replacement cannot
    help form a new match: its first character is not in the pattern, the
    pattern's first character is in neither the replacement nor the rest of
    the pattern.
  */
  lemma {:induction false} ReplaceAllIdempotent(s: string, pat: string, rep: string)
    requires |pat| > 0 && |rep| > 0
    requires rep[0] !in pat && pat[0] !in rep && pat[0] !in pat[1..]
    ensures ReplaceAll(ReplaceAll(s, pat, rep), pat, rep) == ReplaceAll(s, pat, rep)
    decreases |s|
  {
    if |s| < |pat| {
    } else if s[..|pat|] == pat {
      var rest := ReplaceAll(s[|pat|..], pat, rep);
      ReplaceAllSkips(rep, rest, pat, rep);
      ReplaceAllIdempotent(s[|pat|..], pat, rep);
    } else {
      var t := ReplaceAll(s[1..], pat, rep);
      var ct := [s[0]] + t;
      ReplaceAllIdempotent(s[1..], pat, rep);
      if |ct| < |pat| {
        assert ReplaceAll(t, pat, rep) == t;
      } else {
        assert ct[..|pat|] != pat by {
          assert s[..|pat|] == [s[0]] + s[1..][..|pat| - 1];
          assert ct[..|pat|] == [s[0]] + t[..|pat| - 1];
          if s[0] == pat[0] {
            assert rep[0] !in pat[1..];
            ReplaceAllKeepsNonPrefix(s[1..], pat[1..], pat, rep);
          }
        }
        assert ct[1..] == t;
      }
    }
  }

  /** Whether the pattern occurs anywhere in the text. */
  predicate Contains(s: string, pat: string) {
    exists i :: 0 <= i <= |s| - |pat| && StartsWith(s[i..], pat)
  }

  /**
    The global replace leaves no occurrence of the pattern behind, provided
    the replacement cannot help form one: the pattern's first character is in
    neither the replacement nor the rest of the pattern, and the replacement's
    first character is not in the rest of the pattern.
  */
  lemma {:induction false} NoPatternLeft(s: string, pat: string, rep: string)
    requires |pat| > 0 && |rep| > 0
    requires pat[0] !in rep && rep[0] !in pat[1..] && pat[0] !in pat[1..]
    ensures !Contains(ReplaceAll(s, pat, rep), pat)
    decreases |s|
  {
    var r := ReplaceAll(s, pat, rep);
    if |s| < |pat| {
      assert r == s;
    } else if s[..|pat|] == pat {
      var rest := ReplaceAll(s[|pat|..], pat, rep);
      assert r == rep + rest;
      NoPatternLeft(s[|pat|..], pat, rep);
      forall i | 0 <= i <= |r| - |pat|
        ensures !StartsWith(r[i..], pat)
      {
        if i < |rep| {
          assert r[i..][0] == rep[i];
        } else {
          assert r[i..] == rest[i - |rep|..];
        }
      }
    } else {
      var rest := ReplaceAll(s[1..], pat, rep);
      assert r == [s[0]] + rest;
      NoPatternLeft(s[1..], pat, rep);
      forall i | 0 <= i <= |r| - |pat|
        ensures !StartsWith(r[i..], pat)
      {
        if i == 0 {
          if s[0] == pat[0] {
            assert s[..|pat|] == [s[0]] + s[1..][..|pat| - 1];
            assert |pat| > 1;
            ReplaceAllKeepsNonPrefix(s[1..], pat[1..], pat, rep);
            if |pat| <= |r| {
              assert r[..|pat|][1..] == rest[..|pat| - 1];
            }
          } else {
            assert r[0] == s[0];
          }
        } else {
          assert r[i..] == rest[i - 1..];
        }
      }
    }
  }

  /** The model name as a JavaScript string literal: what replaces the placeholder. */
  function Quoted(name: string): string {
    "\"" + name + "\""
  }

  /**
    The rewrite of one view before installation: the map text has every
    placeholder replaced; a defined reduce is rebuilt from the map text as it
    now stands (`String(view.map)`, "undefined" when there is no map).
  */
  function SubstituteView(v: View, name: string): View {
    var m := if v.mapSrc.Some? then Some(ReplaceAll(v.mapSrc.value, Placeholder, Quoted(name))) else None;
    var r := if v.reduceSrc.Some? then Some(ReplaceAll(m.GetOr("undefined"), Placeholder, Quoted(name))) else None;
    View(m, r)
  }

  /** Every view of the object rewritten in place, names and order kept. */
  function SubstituteViews(vs: Views, name: string): (ws: Views)
    ensures |ws| == |vs|
    ensures forall i {:trigger ws[i]} :: 0 <= i < |vs| ==> ws[i] == (vs[i].0, SubstituteView(vs[i].1, name))
  {
    if vs == [] then [] else [(vs[0].0, SubstituteView(vs[0].1, name))] + SubstituteViews(vs[1..], name)
  }

  lemma PlaceholderShape()
    ensures |Placeholder| > 0 && Placeholder[0] == '$'
    ensures '$' !in Placeholder[1..] && '"' !in Placeholder
    ensures '$' !in AllMapHead && '$' !in AllMapTail && '$' !in "undefined"
  {
  }

  /** One placeholder between two texts free of its first character is replaced and nothing else. */
  lemma ReplaceInTemplate(h: string, t: string, pat: string, rep: string)
    requires |pat| > 0 && pat[0] !in h && pat[0] !in t
    ensures ReplaceAll(h + pat + t, pat, rep) == h + rep + t
  {
    assert h + pat + t == h + (pat + t);
    ReplaceAllSkips(h, pat + t, pat, rep);
    assert (pat + t)[..|pat|] == pat;
    assert (pat + t)[|pat|..] == t;
    ReplaceAllNoMatch(t, pat, rep);
  }

  /** The built-in view after substitution selects documents typed with the quoted model name. */
  lemma AllViewSubstituted(name: string)
    ensures SubstituteView(AllView, name) == View(Some(AllMapHead + Quoted(name) + AllMapTail), None)
  {
    PlaceholderShape();
    ReplaceInTemplate(AllMapHead, AllMapTail, Placeholder, Quoted(name));
  }

  /**
    After the rewrite neither the map step nor a rebuilt reduce step holds a
    placeholder, when the model name has no `$`.
  */
  lemma SubstitutedHasNoPlaceholder(v: View, name: string)
    requires '$' !in name
    ensures var w := SubstituteView(v, name);
            && (w.mapSrc.Some? ==> !Contains(w.mapSrc.value, Placeholder))
            && (w.reduceSrc.Some? ==> !Contains(w.reduceSrc.value, Placeholder))
  {
    PlaceholderShape();
    var q := Quoted(name);
    assert q[0] == '"' && '$' !in q;
    var m := if v.mapSrc.Some? then Some(ReplaceAll(v.mapSrc.value, Placeholder, q)) else None;
    if v.mapSrc.Some? {
      NoPatternLeft(v.mapSrc.value, Placeholder, q);
    }
    NoPatternLeft(m.GetOr("undefined"), Placeholder, q);
  }

  /**
    Rewriting a view twice is rewriting it once, when the model name has no
    `$`: installing the design document again changes nothing.
  */
  lemma SubstituteViewIdempotent(v: View, name: string)
    requires '$' !in name
    ensures SubstituteView(SubstituteView(v, name), name) == SubstituteView(v, name)
  {
    PlaceholderShape();
    var q := Quoted(name);
    assert q[0] == '"' && '$' !in q;
    if v.mapSrc.Some? {
      ReplaceAllIdempotent(v.mapSrc.value, Placeholder, q);
    }
    ReplaceAllNoMatch("undefined", Placeholder, q);
  }

  lemma SubstituteViewsIdempotent(vs: Views, name: string)
    requires '$' !in name
    ensures SubstituteViews(SubstituteViews(vs, name), name) == SubstituteViews(vs, name)
  {
    forall i | 0 <= i < |vs| {
      SubstituteViewIdempotent(vs[i].1, name);
    }
  }

  /**
    After the rewrite a defined reduce step holds the map step's text (or
    "undefined" without one), not the reduce function it was configured with.
  */
  lemma ReduceCopiesMap(v: View, name: string)
    requires '$' !in name
    ensures var w := SubstituteView(v, name);
            && (v.reduceSrc.Some? <==> w.reduceSrc.Some?)
            && (w.reduceSrc.Some? ==> w.reduceSrc.value == w.mapSrc.GetOr("undefined"))
  {
    PlaceholderShape();
    var q := Quoted(name);
    assert q[0] == '"' && '$' !in q;
    if v.mapSrc.Some? {
      ReplaceAllIdempotent(v.mapSrc.value, Placeholder, q);
    }
    ReplaceAllNoMatch("undefined", Placeholder, q);
  }

  // ----- the design document -----

  /** A view as stored: an object with "map" and "reduce" members where defined. */
  function ViewJson(v: View): Json {
    Obj((if v.mapSrc.Some? then map["map" := Str(v.mapSrc.value)] else map[]) +
        (if v.reduceSrc.Some? then map["reduce" := Str(v.reduceSrc.value)] else map[]))
  }

  function ViewsJson(vs: Views): map<string, Json> {
    if vs == [] then map[] else ViewsJson(vs[1..])[vs[0].0 := ViewJson(vs[0].1)]
  }

  /** `{"views": localviews}` */
  function DesignDoc(vs: Views): Doc {
    map["views" := Obj(ViewsJson(vs))]
  }

  /** The key a model's design document is saved under. */
  function DesignKey(plural: string): string {
    "_design/" + plural
  }

  /** The design document holds exactly the model's views, each as its map/reduce text. */
  lemma {:induction false} DesignDocViews(vs: Views, k: string)
    ensures k in ViewsJson(vs) <==> Find(vs, k).Some?
    ensures Find(vs, k).Some? ==> ViewsJson(vs)[k] == ViewJson(Find(vs, k).value)
  {
    if vs != [] {
      DesignDocViews(vs[1..], k);
    }
  }

  // ----- query options -----

  /** Whether `String(x)` of a one-element array's element reads as a number. */
  predicate TextNumeric(x: Json) {
    match x
    case Null => true
    case Bool(_) => false
    case Num(_) => true
    case Str(s) => IsDigitText(s)
    case Arr(xs) => |xs| == 0 || (|xs| == 1 && TextNumeric(xs[0]))
    case Obj(_) => false
  }

  /** `!isNaN(x)`: `x` converts to a number. */
  predicate LooseNumeric(x: Json) {
    match x
    case Null => true
    case Bool(_) => true
    case Num(_) => true
    case Str(s) => IsDigitText(s)
    case Arr(xs) => |xs| == 0 || (|xs| == 1 && TextNumeric(xs[0]))
    case Obj(_) => false
  }

  /**
    The options a view query sends: none given means `{}`; a number, a string
    or anything else that converts to a number means `{key: x}`; an options
    object (or an array that is not a number) passes through.
  */
  function NormalizeOptions(arg: Option<Json>): (opts: Json)
    ensures arg.None? ==> opts == Obj(map[])
    ensures arg.Some? && (arg.value.Str? || arg.value.Num?) ==> opts == Obj(map["key" := arg.value])
    ensures arg.Some? && arg.value.Obj? ==> opts == arg.value
  {
    if arg.None? then Obj(map[])
    else if LooseNumeric(arg.value) || arg.value.Str? then Obj(map["key" := arg.value])
    else arg.value
  }

  /** `view(name, x)` and `view(name, {key: x})` send the same options. */
  lemma KeySugar(x: Json)
    requires x.Str? || x.Num?
    ensures NormalizeOptions(Some(x)) == NormalizeOptions(Some(Obj(map["key" := x])))
  {
  }

  /** Normalised options are already normal. */
  lemma NormalizeOptionsIdempotent(arg: Option<Json>)
    ensures NormalizeOptions(Some(NormalizeOptions(arg))) == NormalizeOptions(arg)
  {
  }
}
