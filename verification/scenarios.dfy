/** The behaviours the repository's own tests exercise, stated for the model. */
module Scenarios {
  import opened Wrappers
  import opened Types
  import ContextQuery
  import Seqs
  import Objects
  import opened UnleashClient

  /** `appName` and a two-entry `properties` record serialise to three
      parameters, the properties in their order and under bracketed keys. */
  lemma SerializerExample()
    ensures ContextQuery.ContextParams([
        Scalar("appName", Some("appName")),
        Properties(Some([Property("prop1", Some("propValue1")), Property("prop2", Some("propValue2"))]))
      ]) == [
        Param("appName", "appName"),
        Param("properties[prop1]", "propValue1"),
        Param("properties[prop2]", "propValue2")
      ]
  {
    var app := Scalar("appName", Some("appName"));
    var props := [Property("prop1", Some("propValue1")), Property("prop2", Some("propValue2"))];
    ContextQuery.EntryParamsInPlace([app], Properties(Some(props)), []);
    assert [app] + [Properties(Some(props))] + [] == [app, Properties(Some(props))];
    assert ContextQuery.ContextParams([app]) == [Param("appName", "appName")] by {
      ContextQuery.EntryParamsInPlace([], app, []);
      assert [] + [app] + [] == [app];
    }
    assert props[..1] == [props[0]];
    assert [props[0]][..0] == [];
    assert ContextQuery.PropertyKey("prop1") == "properties[prop1]";
    assert ContextQuery.PropertyKey("prop2") == "properties[prop2]";
    assert ContextQuery.PropertyParam(props[0]) == [Param("properties[prop1]", "propValue1")];
    assert Seqs.ConcatMap([props[0]], ContextQuery.PropertyParam) ==
      Seqs.ConcatMap([props[0]][..0], ContextQuery.PropertyParam) + ContextQuery.PropertyParam(props[0]);
    assert ContextQuery.PropertyParams([props[0]]) == [Param("properties[prop1]", "propValue1")];
    assert ContextQuery.PropertyParams(props) ==
      ContextQuery.PropertyParams([props[0]]) + [Param("properties[prop2]", "propValue2")];
  }

  const TestConfig := Config(
    Some(Text("https://example.com")),
    Some("not-a-client-key"),
    Some("tester"),
    None,
    Some([Scalar("userId", Some("user-id"))]))

  const Feature1 := Toggle("feature-1", true, [], false)

  /** The client the test configuration builds. */
  const TestClient := Client(
    Url("https://example.com/", []),
    "not-a-client-key",
    [Scalar("appName", Some("tester")), Scalar("userId", Some("user-id"))],
    "",
    None)

  /** The test configuration builds a client whose context is `appName`
      followed by `userId`, with no validator and no snapshot. */
  lemma CreateExample(parse: string -> Option<Url>)
    requires parse("https://example.com") == Some(Url("https://example.com/", []))
    ensures Create(TestConfig, parse) == Success(TestClient)
  {
    var user := Scalar("userId", Some("user-id"));
    assert MergeContext("tester", Some([user])) == TestClient.context by {
      MergeTypedContext("tester", [user]);
      assert [Scalar("appName", Some("tester"))] + [user] == TestClient.context;
    }
    assert !Falsy(TestConfig.clientKey) && !Falsy(TestConfig.appName);
    assert ParseUrl(TestConfig.url.value, parse) == Some(TestClient.url);
  }

  /** A 200 with ETag `ETAG-1` stores the body and reports `Updated`; the
      next request goes to `?appName=tester&userId=user-id` with
      `If-None-Match: ETAG-1`; a following 304 reports `Unchanged` and keeps
      the snapshot. */
  lemma FetchExample()
    ensures
      var f1 := FetchToggles(TestClient, Response(true, 200, Some("ETAG-1"), [Feature1]));
      var f2 := FetchToggles(f1.next, Response(true, 304, Some("123123"), []));
      && f1.result == Success(Updated)
      && GetToggles(f1.next) == Success([Feature1])
      && IsEnabled(f1.next, "feature-1") == Success(true)
      && IsEnabled(f1.next, "nonexistent") == Success(false)
      && BuildRequest(f1.next) == Request(
           Url("https://example.com/", [Param("appName", "tester"), Param("userId", "user-id")]),
           Headers("not-a-client-key", "application/json", "application/json", Some("ETAG-1")))
      && f2.result == Success(Unchanged)
      && GetToggles(f2.next) == Success([Feature1])
  {
    var app := Scalar("appName", Some("tester"));
    var user := Scalar("userId", Some("user-id"));
    Objects.NotArrayIndex(app.Key());
    Objects.NotArrayIndex(user.Key());
    Objects.OwnKeysWithoutIndices([app, user]);
    ContextQuery.EntryParamsInPlace([app], user, []);
    ContextQuery.EntryParamsInPlace([], app, []);
    assert [app] + [user] + [] == [app, user];
    assert [] + [app] + [] == [app];
  }

  /** After the 200 above, a 500 fails and keeps the snapshot. */
  lemma FailedFetchExample()
    ensures
      var f1 := FetchToggles(TestClient, Response(true, 200, Some("ETAG-1"), [Feature1]));
      var f3 := FetchToggles(f1.next, Response(false, 500, None, []));
      && f3.result == Failure(FetchFailed)
      && GetToggles(f3.next) == Success([Feature1])
  {
  }

  // The array-index example below takes its entries as parameters pinned by
  // `requires` rather than as literals: on literal arguments the verifier
  // unfolds the recursive definitions of spread and enumeration eagerly and
  // runs out of resources.

  /** The caller context `{userId: 'u', 0: 'x'}`, as enumerated (`0`
      first), has distinct keys, none of them `appName`. */
  lemma IndexKeyContext(zero: Field, user: Field)
    requires zero == Scalar("0", Some("x")) && user == Scalar("userId", Some("u"))
    ensures Objects.KeysUnique([zero, user])
    ensures forall i :: 0 <= i < |[zero, user]| ==> [zero, user][i].Key() != "appName"
  {
    assert user.Key()[0] != zero.Key()[0];
  }

  /** In insertion order `appName` comes first. */
  lemma IndexKeyMerged(zero: Field, user: Field)
    requires zero == Scalar("0", Some("x")) && user == Scalar("userId", Some("u"))
    ensures MergeContext("tester", Some([zero, user])) == [Scalar("appName", Some("tester")), zero, user]
  {
    IndexKeyContext(zero, user);
    MergeTypedContext("tester", [zero, user]);
  }

  /** In enumeration order the array-index key comes before `appName`. */
  lemma IndexKeyEnumerated(app: Field, zero: Field, user: Field)
    requires app == Scalar("appName", Some("tester"))
    requires zero == Scalar("0", Some("x")) && user == Scalar("userId", Some("u"))
    ensures Objects.OwnKeys([app, zero, user]) == [zero, app, user]
  {
    Objects.NotArrayIndex(app.Key());
    Objects.NotArrayIndex(user.Key());
    assert Objects.IsIndexEntry(zero) by {
      assert "0"[..0] == [];
    }
    Seqs.SortedPartitionMovesMiddle(app, zero, user, Objects.IsIndexEntry, Objects.IsNamedEntry, Objects.Rank);
  }

  /** For the caller context `{userId: 'u', 0: 'x'}` the serializer walks
      `0`, `appName`, `userId`, in that order, although `appName` was
      inserted first. */
  lemma IndexKeyExample(app: Field, zero: Field, user: Field)
    requires app == Scalar("appName", Some("tester"))
    requires zero == Scalar("0", Some("x")) && user == Scalar("userId", Some("u"))
    ensures MergeContext("tester", Some([zero, user]))[0] == app
    ensures Objects.OwnKeys(MergeContext("tester", Some([zero, user]))) == [zero, app, user]
  {
    IndexKeyMerged(zero, user);
    IndexKeyEnumerated(app, zero, user);
  }
}
