/** Serialisation of an evaluation context into the query of the toggle
    request URL (src/utils/index.ts). */
module ContextQuery {
  import opened Wrappers
  import opened Types
  import Seqs

  /** The query key under which property `k` is sent. */
  function PropertyKey(k: string): string {
    "properties[" + k + "]"
  }

  /** Parameters one property contributes: none when its value is absent. */
  function PropertyParam(p: Property): seq<Param> {
    match p.value
    case None => []
    case Some(v) => [Param(PropertyKey(p.key), v)]
  }

  /** Parameters of a property record, appended in property order. */
  function PropertyParams(ps: seq<Property>): seq<Param> {
    Seqs.ConcatMap(ps, PropertyParam)
  }

  /** Parameters one context entry contributes. */
  function FieldParams(f: Field): seq<Param> {
    match f
    case Scalar(k, None) => []
    case Scalar(k, Some(v)) => [Param(k, v)]
    case Properties(None) => []
    case Properties(Some(ps)) => PropertyParams(ps)
  }

  /** Parameters of a whole context, appended in enumeration order. */
  function ContextParams(ctx: Context): seq<Param> {
    Seqs.ConcatMap(ctx, FieldParams)
  }

  /** The URL the request goes to: a copy of `url` whose query is the
      original query followed by the context's parameters. */
  function WithContextAsQuery(url: Url, ctx: Context): Url {
    Url(url.base, url.query + ContextParams(ctx))
  }

  /** The serialiser as the source writes it: two nested loops that append
      one parameter at a time to a copy of the URL. */
  method UrlWithContextAsQuery(url: Url, ctx: Context) returns (r: Url)
    ensures r == WithContextAsQuery(url, ctx)
  {
    var query := url.query;
    var i := 0;
    while i < |ctx|
      invariant 0 <= i <= |ctx|
      invariant query == url.query + ContextParams(ctx[..i])
    {
      assert ctx[..i + 1][..i] == ctx[..i];
      match ctx[i] {
        case Scalar(k, v) =>
          if v.Some? {
            query := query + [Param(k, v.value)];
          }
        case Properties(ps) =>
          if ps.Some? {
            var props := ps.value;
            var j := 0;
            while j < |props|
              invariant 0 <= j <= |props|
              invariant query == url.query + ContextParams(ctx[..i]) + PropertyParams(props[..j])
            {
              assert props[..j + 1][..j] == props[..j];
              query := query + PropertyParam(props[j]);
              j := j + 1;
            }
            assert props[..j] == props;
          }
      }
      i := i + 1;
    }
    assert ctx[..i] == ctx;
    r := Url(url.base, query);
  }

  // ---------------------------------------------------------------------
  // Counting

  /** Positions of the properties whose value is present. */
  ghost function PresentProperties(ps: seq<Property>): set<nat> {
    set j: nat | j < |ps| && ps[j].value.Some?
  }

  /** Positions of the scalar entries whose value is present. */
  ghost function PresentScalars(ctx: Context): set<nat> {
    set i: nat | i < |ctx| && ctx[i].Scalar? && ctx[i].value.Some?
  }

  /** Number of present properties over all `properties` entries. */
  ghost function PresentPropertyCount(ctx: Context): nat
    decreases |ctx|
  {
    if ctx == [] then 0
    else
      var f := ctx[|ctx| - 1];
      PresentPropertyCount(ctx[..|ctx| - 1])
        + (if f.Properties? && f.entries.Some? then |PresentProperties(f.entries.value)| else 0)
  }

  /** A property record contributes one parameter per present property. */
  lemma {:induction false} PropertyParamsCount(ps: seq<Property>)
    ensures |PropertyParams(ps)| == |PresentProperties(ps)|
    decreases |ps|
  {
    if ps != [] {
      var n := |ps| - 1;
      PropertyParamsCount(ps[..n]);
      var before := PresentProperties(ps[..n]);
      assert n !in before;
      if ps[n].value.Some? {
        assert PresentProperties(ps) == before + {n};
      } else {
        assert PresentProperties(ps) == before;
      }
    }
  }

  /** The number of appended parameters is the number of present scalar
      entries plus the number of present properties. */
  lemma {:induction false} ContextParamsCount(ctx: Context)
    ensures |ContextParams(ctx)| == |PresentScalars(ctx)| + PresentPropertyCount(ctx)
    decreases |ctx|
  {
    if ctx != [] {
      var n := |ctx| - 1;
      var f := ctx[n];
      ContextParamsCount(ctx[..n]);
      var before := PresentScalars(ctx[..n]);
      assert n !in before;
      if f.Scalar? && f.value.Some? {
        assert PresentScalars(ctx) == before + {n};
      } else {
        assert PresentScalars(ctx) == before;
      }
      if f.Properties? && f.entries.Some? {
        PropertyParamsCount(f.entries.value);
      }
    }
  }

  // ---------------------------------------------------------------------
  // Order and membership

  /** Enumeration order is kept: an entry's parameters sit between those
      of the entries before it and those of the entries after it. */
  lemma EntryParamsInPlace(a: Context, f: Field, b: Context)
    ensures ContextParams(a + [f] + b) == ContextParams(a) + FieldParams(f) + ContextParams(b)
  {
    Seqs.ConcatMapAppend(a + [f], b, FieldParams);
    Seqs.ConcatMapAppend(a, [f], FieldParams);
    assert [f][..0] == [];
  }

  /** Each entry contributes its own parameters in place, so an entry whose
      value is absent, and a `properties` record that is absent or empty,
      leaves the query exactly as if the entry were not there. */
  lemma SilentEntriesContributeNothing(a: Context, f: Field, b: Context)
    requires (f.Scalar? && f.value.None?) || (f.Properties? && (f.entries.None? || f.entries.value == []))
    ensures ContextParams(a + [f] + b) == ContextParams(a + b)
  {
    EntryParamsInPlace(a, f, b);
    Seqs.ConcatMapAppend(a, b, FieldParams);
  }

  /** `p` comes from property `q`. */
  predicate PropertyEmits(q: Property, p: Param) {
    q.value == Some(p.value) && p.key == PropertyKey(q.key)
  }

  /** `p` comes from context entry `f`. */
  predicate FieldEmits(f: Field, p: Param) {
    match f
    case Scalar(k, v) => v == Some(p.value) && p.key == k
    case Properties(ps) =>
      ps.Some? && exists j :: 0 <= j < |ps.value| && PropertyEmits(ps.value[j], p)
  }

  /** A parameter is in the query exactly when some context entry carries
      it: a present scalar `(k, v)`, or a present property `k: v` of the
      `properties` record sent as `properties[k]`. */
  lemma ContextParamsMembership(ctx: Context, p: Param)
    ensures p in ContextParams(ctx) <==> exists i :: 0 <= i < |ctx| && FieldEmits(ctx[i], p)
  {
    Seqs.ConcatMapMembership(ctx, FieldParams, p);
    forall i | 0 <= i < |ctx|
      ensures p in FieldParams(ctx[i]) <==> FieldEmits(ctx[i], p)
    {
      if ctx[i].Properties? && ctx[i].entries.Some? {
        Seqs.ConcatMapMembership(ctx[i].entries.value, PropertyParam, p);
      }
    }
  }

  /** Reordering the context's entries keeps the set of parameters. */
  lemma ContextParamsPermutation(a: Context, b: Context, p: Param)
    requires multiset(a) == multiset(b)
    ensures p in ContextParams(a) <==> p in ContextParams(b)
  {
    ContextParamsMembership(a, p);
    ContextParamsMembership(b, p);
    if i :| 0 <= i < |a| && FieldEmits(a[i], p) {
      assert a[i] in multiset(b);
      var j :| 0 <= j < |b| && b[j] == a[i];
    }
    if j :| 0 <= j < |b| && FieldEmits(b[j], p) {
      assert b[j] in multiset(a);
      var i :| 0 <= i < |a| && a[i] == b[j];
    }
  }

  /** No parameter is ever named bare `properties`. */
  lemma NoBarePropertiesKey(ctx: Context)
    ensures forall p :: p in ContextParams(ctx) ==> p.key != "properties"
  {
    forall p | p in ContextParams(ctx)
      ensures p.key != "properties"
    {
      ContextParamsMembership(ctx, p);
      var i :| 0 <= i < |ctx| && FieldEmits(ctx[i], p);
      if ctx[i].Properties? {
        assert |PropertyKey(ctx[i].entries.value[0].key)| > |"properties"|;
        var j :| 0 <= j < |ctx[i].entries.value| && PropertyEmits(ctx[i].entries.value[j], p);
        assert |p.key| > |"properties"|;
      }
    }
  }

  /** The request URL keeps the original URL's base and query, and then
      carries the context's parameters. */
  lemma WithContextAsQueryExtends(url: Url, ctx: Context)
    ensures WithContextAsQuery(url, ctx).base == url.base
    ensures WithContextAsQuery(url, ctx).query[..|url.query|] == url.query
    ensures |WithContextAsQuery(url, ctx).query| == |url.query| + |PresentScalars(ctx)| + PresentPropertyCount(ctx)
  {
    ContextParamsCount(ctx);
  }
}
