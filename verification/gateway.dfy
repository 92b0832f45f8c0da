/** The routing decision of internal/gateway/gateway.go, and which operation a REST path ends up at. */
module Gateway {
  import opened GoStrings
  import opened LroStorage
  import opened Wrappers

  datatype Routed =
    | ListDirectly(parent: string)
    | Forward(path: string)

  /** projectScopedLRORewriter. */
  function Route(httpMethod: string, urlPath: string): Routed {
    if httpMethod == "GET" && "/v1/" <= urlPath then
      var path := urlPath[4..];
      var lastOp := LastIndex(path, "/operations");
      if lastOp >= 0 && "projects/" <= path then
        var suffix := path[lastOp + 11..];
        if suffix == "" || suffix == "/" then ListDirectly(path[..lastOp]) else Forward("/v1/operations/" + path)
      else Forward(urlPath)
    else Forward(urlPath)
  }

  /** The generated operations handler takes the paths under /v1/operations/ and binds name to all that follows /v1/. */
  function BoundName(path: string): Option<string> {
    if "/v1/operations/" <= path then Some(path[4..]) else None
  }

  /** The key at which GET on the path looks an operation up, when it reaches the operations handler at all. */
  function RestKey(urlPath: string): Option<string> {
    match Route("GET", urlPath)
    case ListDirectly(_) => None
    case Forward(path) =>
      match BoundName(path)
      case None => None
      case Some(name) => Some(Key(name))
  }

  /** In an operation name the last "/operations" is the one CreateDone put there. */
  lemma LastOperations(parent: string, uuid: string)
    requires IsHex(uuid)
    ensures LastIndex(OperationName(parent, uuid), "/operations") == |parent|
  {
    var name, sep := OperationName(parent, uuid), "/operations";
    assert name == parent + sep + "/" + uuid;
    assert name[|parent|..|parent| + |sep|] == sep;
    // The 'p' of any later occurrence would have to stand after that of this one, where there is none.
    var tail := "erations/" + uuid;
    assert name == parent + "/op" + tail;
    assert forall m :: |parent| + 2 < m < |name| ==> name[m] == tail[m - |parent| - 3];
    NoneAfter(name, sep, |parent|, 2);
    LastIndexIs(name, sep, |parent|);
  }

  /**
   For every operation that CreateDone makes, REST GET on its own name looks up its own key if and only if the name
   starts with "projects/"; it then takes the rewrite branch, and the gRPC lookup uses the same key.
   */
  lemma RestFindsOwnKeyIff(parent: string, uuid: string)
    requires IsHex(uuid)
    ensures var name := OperationName(parent, uuid);
            RestKey("/v1/" + name) == Some(name) <==> "projects/" <= name
    ensures var name := OperationName(parent, uuid);
            "projects/" <= name ==> Route("GET", "/v1/" + name) == Forward("/v1/operations/" + name) && Key(name) == name
  {
    var name := OperationName(parent, uuid);
    OperationRoutes(parent, uuid);
    if "projects/" <= name {
      assert name[0] == 'p';
      TrimsOnePrefix(name);
    } else if "/v1/operations/" <= "/v1/" + name {
      assert |Key(name)| < |name| by {
        assert name[..11] == ("/v1/" + name)[..15][4..];
      }
    }
  }

  lemma TrimsOnePrefix(name: string)
    ensures BoundName("/v1/operations/" + name) == Some("operations/" + name) && Key("operations/" + name) == name
  {
    var path := "/v1/operations/" + name;
    assert path == "/v1/" + ("operations/" + name);
    assert path[4..] == "operations/" + name;
  }

  lemma OperationRoutes(parent: string, uuid: string)
    requires IsHex(uuid)
    ensures var name := OperationName(parent, uuid);
            Route("GET", "/v1/" + name) == Forward((if "projects/" <= name then "/v1/operations/" else "/v1/") + name)
  {
    var name := OperationName(parent, uuid);
    LastOperations(parent, uuid);
    assert ("/v1/" + name)[4..] == name;
    assert name[|parent| + 11..] == "/" + uuid;
  }

  /** GET on the collection of a parent lists with exactly that parent, provided the path starts with "projects/". */
  lemma CollectionListsParentIff(parent: string)
    ensures Route("GET", "/v1/" + parent + "/operations") == ListDirectly(parent) <==> "projects/" <= parent + "/operations"
  {
    var path := parent + "/operations";
    var url := "/v1/" + parent + "/operations";
    assert url == "/v1/" + path && url[4..] == path;
    assert path[|parent|..|parent| + 11] == "/operations";
    LastIndexIs(path, "/operations", |parent|);
    assert path[|parent| + 11..] == "";
  }

  /** The listing that the collection path triggers has every operation made under the parent. */
  lemma CollectionListsOwnOperations(parent: string, uuid: string)
    requires "projects/" <= parent + "/"
    ensures Key(parent) == parent && parent <= OperationName(parent, uuid)
  {
    assert parent != "" && (parent + "/")[0] == parent[0] == 'p';
    assert OperationName(parent, uuid) == parent + ("/operations/" + uuid);
  }

  /**
   GET on /v1/operations binds name to "operations", which has no prefix to trim: it lists an operation if and only if
   its parent starts with that word.
   */
  lemma RestListAllCoversIff(parent: string, uuid: string)
    ensures Key("operations") == "operations"
    ensures Key("operations") <= OperationName(parent, uuid) <==> "operations" <= parent
  {
    var word, name := "operations", OperationName(parent, uuid);
    assert |word| == 10 && |"operations/"| == 11;
    assert name == parent + ("/operations/" + uuid);
    // The word has no slash, so it cannot reach the one after the parent.
    assert name[|parent|] == '/' && forall k :: 0 <= k < 10 ==> word[k] != '/';
    if |parent| >= 10 {
      assert name[..10] == parent[..10];
    }
  }

  /** So it lists none of the operations made under a project. */
  lemma RestListAllFindsNothing(parent: string, uuid: string)
    requires "projects/" <= parent + "/"
    ensures !(Key("operations") <= OperationName(parent, uuid))
  {
    RestListAllCoversIff(parent, uuid);
    assert parent != "" && parent[0] == (parent + "/")[0] == 'p';
  }

  /**
   A request reaches its own handler unchanged except exactly when it is a GET under /v1/projects/ whose path has a
   later segment that starts with "operations".
   */
  lemma PassesThroughIff(httpMethod: string, url: string)
    ensures Route(httpMethod, url) != Forward(url)
            <==> httpMethod == "GET" && "/v1/projects/" <= url && exists j :: OccursAt(url[4..], "/operations", j)
  {
    assert "/v1/projects/"[..4] == "/v1/" && "/v1/projects/"[4..] == "projects/";
    assert "/v1/projects/" <= url ==> "projects/" == url[..13][4..] == url[4..][..9];
    if "/v1/" <= url && "projects/" <= url[4..] {
      assert url == "/v1/" + url[4..] && url[4..] == "projects/" + url[13..];
      assert url == "/v1/projects/" + url[13..];
      assert |"/v1/operations/" + url[4..]| > |url|;
    }
  }

  lemma CutsAtOperations(path: string, p: string, suffix: string)
    requires path == p + "/operations" + suffix && (suffix == "" || suffix == "/")
    ensures LastIndex(path, "/operations") == |p| && path[..|p|] == p && path[|p| + 11..] == suffix
  {
    var sep := "/operations";
    assert path[|p|..|p| + 11] == sep;
    // A later occurrence would have its 'p' after that of this one, where there is none.
    assert path == p + "/op" + ("erations" + suffix);
    assert forall m :: |p| + 2 < m < |path| ==> path[m] == ("erations" + suffix)[m - |p| - 3];
    NoneAfter(path, sep, |p|, 2);
    LastIndexIs(path, sep, |p|);
  }

  /** A GET lists the operations of a parent directly exactly on its collection under projects/, with or without a final slash. */
  lemma ListsDirectlyIff(httpMethod: string, url: string, parent: string)
    ensures Route(httpMethod, url) == ListDirectly(parent)
            <==> httpMethod == "GET" && "/v1/projects/" <= url
                 && (url == "/v1/" + (parent + "/operations") || url == "/v1/" + (parent + "/operations/"))
  {
    if "/v1/" <= url {
      ListsPathIff(url[4..], parent);
      UrlHasPath(url, parent + "/operations");
      UrlHasPath(url, parent + "/operations/");
      ProjectUrl(url);
    }
  }

  lemma UrlHasPath(url: string, path: string)
    requires "/v1/" <= url
    ensures url == "/v1/" + path <==> url[4..] == path
  {
    assert url == "/v1/" + url[4..];
  }

  lemma ProjectUrl(url: string)
    requires "/v1/" <= url
    ensures "/v1/projects/" <= url <==> "projects/" <= url[4..]
  {
    assert url == "/v1/" + url[4..] && "/v1/projects/" == "/v1/" + "projects/";
    assert "/v1/projects/" <= url ==> url[..13][4..] == url[4..][..9];
    assert "projects/" <= url[4..] ==> url == "/v1/projects/" + url[13..];
  }

  lemma ListsPathIff(path: string, parent: string)
    ensures var i := LastIndex(path, "/operations");
            i >= 0 && path[i + 11..] in {"", "/"} && path[..i] == parent
            <==> path == parent + "/operations" || path == parent + "/operations/"
  {
    var i := LastIndex(path, "/operations");
    if i >= 0 && path[i + 11..] in {"", "/"} && path[..i] == parent {
      assert path == path[..i] + path[i..i + 11] + path[i + 11..];
    }
    if path == parent + "/operations" {
      assert path == parent + "/operations" + "";
      CutsAtOperations(path, parent, "");
    }
    if path == parent + "/operations/" {
      assert path == parent + "/operations" + "/";
      CutsAtOperations(path, parent, "/");
    }
  }

  /** Every other request that does not reach its own handler is forwarded with operations/ put in front of its path. */
  lemma ForwardsUnder(httpMethod: string, url: string)
    requires Route(httpMethod, url) != Forward(url) && Route(httpMethod, url).Forward?
    ensures Route(httpMethod, url) == Forward("/v1/operations/" + url[4..])
  {
  }

  /** So GET on a trigger whose valid id starts with "operations" is taken for a lookup of an operation. */
  lemma TriggerTakenForOperation(project: string)
    ensures Route("GET", "/v1/projects/" + project + "/triggers/operations-a")
            != Forward("/v1/projects/" + project + "/triggers/operations-a")
  {
    var url := "/v1/projects/" + project + "/triggers/operations-a";
    var path := "projects/" + project + "/triggers" + "/operations" + "-a";
    assert url == "/v1/projects/" + (project + "/triggers/operations-a");
    assert url[4..] == path;
    assert OccursAt(path, "/operations", 9 + |project| + 9);
    PassesThroughIff("GET", url);
  }
}
