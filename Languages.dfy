/**
 * The repository list of the GraphQL response and the per-language
 * histogram both `process_language_data` functions build from it.
 */
module Languages {
  import opened Wrappers

  /**
   * A repository's `primaryLanguage`: its name and its `color` entry, which
   * is `None` when the key is absent and `Some(None)` when it holds null (as
   * GitHub reports a language that has no colour).
   */
  datatype PrimaryLanguage = PrimaryLanguage(name: string, color: Option<Option<string>>)

  /**
   * One element of `repositories.edges`. `Repository(None)` is a repository
   * whose `primaryLanguage` is null (or an empty, hence falsy, object);
   * `MalformedEdge` is an edge lacking `node`, a node lacking
   * `primaryLanguage`, or a language lacking `name`.
   */
  datatype Edge = Repository(primaryLanguage: Option<PrimaryLanguage>) | MalformedEdge

  /**
   * `data.user.repositories.edges`, or `MissingRepositories` when any key on
   * that path is absent or null, or the response is None (each gives None).
   */
  datatype RepositoriesResponse = MissingRepositories | Edges(edges: seq<Edge>)

  /** The colour used when a language has no `color` key. */
  const DefaultColor: string := "#808080"

  /**
   * `primaryLanguage.get('color', '#808080')`: the default when the key is
   * absent, None when it holds null, the colour otherwise.
   */
  function StoredColor(language: PrimaryLanguage): (c: Option<string>)
    ensures language.color.None? ==> c == Some(DefaultColor)
    ensures language.color.Some? ==> c == language.color.value
  {
    language.color.GetOr(Some(DefaultColor))
  }

  predicate WellFormedEdges(edges: seq<Edge>) {
    forall i :: 0 <= i < |edges| ==> edges[i].Repository?
  }

  /** Does this edge name the language `name`? */
  predicate Names(e: Edge, name: string) {
    e.Repository? && e.primaryLanguage.Some? && e.primaryLanguage.value.name == name
  }

  /** The languages named by some repository. */
  function LanguageNames(edges: seq<Edge>): set<string> {
    if edges == [] then {}
    else
      var e := edges[|edges| - 1];
      LanguageNames(edges[..|edges| - 1])
      + (if e.Repository? && e.primaryLanguage.Some? then {e.primaryLanguage.value.name} else {})
  }

  /** The number of repositories whose primary language is `name`. */
  function LanguageCount(edges: seq<Edge>, name: string): nat {
    if edges == [] then 0
    else LanguageCount(edges[..|edges| - 1], name) + (if Names(edges[|edges| - 1], name) then 1 else 0)
  }

  /** The number of repositories that have a primary language. */
  function WithLanguage(edges: seq<Edge>): (n: nat)
    ensures n <= |edges|
  {
    if edges == [] then 0
    else
      var e := edges[|edges| - 1];
      WithLanguage(edges[..|edges| - 1]) + (if e.Repository? && e.primaryLanguage.Some? then 1 else 0)
  }

  /** The colour of the earliest repository whose language is `name`. */
  function FirstColor(edges: seq<Edge>, name: string): Option<string>
    requires name in LanguageNames(edges)
  {
    var p := edges[..|edges| - 1];
    if name in LanguageNames(p) then FirstColor(p, name)
    else StoredColor(edges[|edges| - 1].primaryLanguage.value)
  }

  /** A language is listed exactly when some repository names it, and then it has a positive count. */
  lemma {:induction false} LanguageNamesMembership(edges: seq<Edge>, name: string)
    ensures name in LanguageNames(edges) <==> exists i :: 0 <= i < |edges| && Names(edges[i], name)
    ensures name in LanguageNames(edges) <==> LanguageCount(edges, name) > 0
  {
    if edges != [] {
      var p := edges[..|edges| - 1];
      LanguageNamesMembership(p, name);
      if exists i :: 0 <= i < |edges| && Names(edges[i], name) {
        var i :| 0 <= i < |edges| && Names(edges[i], name);
        if i < |p| {
          assert p[i] == edges[i];
        }
      }
    }
  }

  /**
   * The colour recorded for a language comes from the first repository that
   * names it: the default when that repository has no `color` key, and None
   * when the key holds null.
   */
  lemma {:induction false} FirstColorIsFirst(edges: seq<Edge>, name: string)
    requires name in LanguageNames(edges)
    ensures exists i ::
              && 0 <= i < |edges| && Names(edges[i], name)
              && (forall j :: 0 <= j < i ==> !Names(edges[j], name))
              && FirstColor(edges, name) == StoredColor(edges[i].primaryLanguage.value)
  {
    var p := edges[..|edges| - 1];
    LanguageNamesMembership(p, name);
    if name in LanguageNames(p) {
      FirstColorIsFirst(p, name);
      var i :| 0 <= i < |p| && Names(p[i], name)
        && (forall j :: 0 <= j < i ==> !Names(p[j], name))
        && FirstColor(p, name) == StoredColor(p[i].primaryLanguage.value);
      assert edges[i] == p[i];
      assert forall j :: 0 <= j < i ==> edges[j] == p[j];
    } else {
      var i := |edges| - 1;
      assert forall j :: 0 <= j < i ==> edges[j] == p[j];
    }
  }

  /** The histogram of repositories per language. */
  function CountsMap(edges: seq<Edge>): map<string, nat> {
    map name | name in LanguageNames(edges) :: LanguageCount(edges, name)
  }

  /** Extending the repository list by one edge updates only the entry of that edge's language. */
  lemma CountsMapStep(edges: seq<Edge>, e: Edge)
    ensures e.Repository? && e.primaryLanguage.Some? ==>
      var l := e.primaryLanguage.value.name;
      CountsMap(edges + [e]) == CountsMap(edges)[l := (if l in CountsMap(edges) then CountsMap(edges)[l] else 0) + 1]
    ensures !(e.Repository? && e.primaryLanguage.Some?) ==> CountsMap(edges + [e]) == CountsMap(edges)
  {
    var s := edges + [e];
    assert s[..|s| - 1] == edges;
    if e.Repository? && e.primaryLanguage.Some? {
      LanguageNamesMembership(edges, e.primaryLanguage.value.name);
    }
  }

  /** The sum of the values of a map. */
  ghost function MapSum(m: map<string, nat>): nat
    decreases |m|
  {
    if m == map[] then 0
    else
      var k :| k in m;
      assert |m - {k}| < |m| by {
        assert (m - {k}).Keys == m.Keys - {k};
      }
      m[k] + MapSum(m - {k})
  }

  /** Any key may be taken out first when summing a map. */
  lemma MapSumRemove(m: map<string, nat>, k: string)
    requires k in m
    ensures MapSum(m) == m[k] + MapSum(m - {k})
    decreases |m|
  {
    var j :| j in m && MapSum(m) == m[j] + MapSum(m - {j});
    if j != k {
      assert (m - {j}).Keys == m.Keys - {j};
      assert (m - {k}).Keys == m.Keys - {k};
      MapSumRemove(m - {j}, k);
      MapSumRemove(m - {k}, j);
      assert m - {j} - {k} == m - {k} - {j};
    }
  }

  /** Setting one entry changes the sum by the difference at that entry. */
  lemma MapSumUpdate(m: map<string, nat>, k: string, v: nat)
    ensures MapSum(m[k := v]) == MapSum(m) - (if k in m then m[k] else 0) + v
  {
    var m' := m[k := v];
    MapSumRemove(m', k);
    assert m' - {k} == m - {k};
    if k in m {
      MapSumRemove(m, k);
    } else {
      assert m - {k} == m;
    }
  }

  /** The histogram counts add up to the number of repositories that have a language. */
  lemma {:induction false} CountsSumToLanguageRepositories(edges: seq<Edge>)
    ensures MapSum(CountsMap(edges)) == WithLanguage(edges) <= |edges|
  {
    if edges == [] {
      assert CountsMap(edges) == map[];
    } else {
      var p := edges[..|edges| - 1];
      var e := edges[|edges| - 1];
      CountsSumToLanguageRepositories(p);
      if e.Repository? && e.primaryLanguage.Some? {
        var l := e.primaryLanguage.value.name;
        LanguageNamesMembership(p, l);
        var old_ := CountsMap(p);
        assert CountsMap(edges) == old_[l := LanguageCount(p, l) + 1];
        MapSumUpdate(old_, l, LanguageCount(p, l) + 1);
      } else {
        assert CountsMap(edges) == CountsMap(p);
      }
    }
  }
}
