/** Prediction of the published documentation URL of a newly added docs
    file, and the list of such URLs for a pull request. */
module GraphUrl {
  import opened Wrappers
  import opened Text
  import opened Types

  const GraphRoot := "https://learn.microsoft.com/en-us/graph"

  lemma GraphRootIsLowerCase()
    ensures IsLowerCase(GraphRoot)
  {
    forall i | 0 <= i < |GraphRoot| ensures !IsUpper(GraphRoot[i]) {
      assert GraphRoot[i] in GraphRoot;
    }
  }

  /** `fileName.replace(/\.[^.]*$/, '')`: the regular expression's only
      possible match starts at the last `.`, so everything from the last
      `.` on is dropped; a name without `.` is kept whole. */
  function StripExtension(fileName: string): (r: string)
    ensures '.' !in fileName ==> r == fileName
    ensures '.' in fileName ==>
      && |r| < |fileName|
      && r == fileName[..|r|]
      && fileName[|r|] == '.'
      && '.' !in fileName[|r| + 1..]
  {
    match LastIndex(fileName, '.')
    case None => fileName
    case Some(i) => fileName[..i]
  }

  lemma StripExtensionOf(base: string, ext: string)
    requires '.' !in ext
    ensures StripExtension(base + "." + ext) == base
  {
    var f := base + "." + ext;
    assert f[|base|] == '.';
    assert f[|base| + 1..] == ext;
    var r := StripExtension(f);
    assert f[|base|] in f;
  }

  /** The root URL followed by the lower-cased relative part, which is the
      whole URL lower-cased because the root has no capital letter. */
  function RootedUrl(relative: string): (r: string)
    ensures r == GraphRoot + LowerStr(relative)
  {
    GraphRootIsLowerCase();
    LowerStrAppend(GraphRoot, relative);
    LowerStrOfLowerCase(GraphRoot);
    LowerStr(GraphRoot + relative)
  }

  /** The URL of a reference topic whose extension-less path is `path`:
      the second segment must be `v1.0` or `beta` and the third `api` or
      `resources`; the remaining segments follow the category's route. */
  function ReferenceUrl(path: string): Option<string>
  {
    var parts := Split(path, '/');
    if |parts| < 3 || (parts[2] != "api" && parts[2] != "resources") then None
    else if parts[1] != "v1.0" && parts[1] != "beta" then None
    else
      var route := if parts[2] == "api" then "/api" else "/api/resources";
      var version := if StartsWith(parts[1], "v") then "1.0" else parts[1];
      Some(RootedUrl(route + "/" + Join(parts[3..], '/') + "?view=graph-rest-" + version))
  }

  /** `generateGraphUrl`: the URL a newly added reference or conceptual
      topic will have once published, or `None` (JavaScript `undefined`)
      for any other path. Every URL it produces is lower-case and lies
      under the documentation root. */
  function GenerateGraphUrl(fileName: string): (r: Option<string>)
    ensures r.Some? ==> IsLowerCase(r.value) && StartsWith(r.value, GraphRoot)
  {
    GraphRootIsLowerCase();
    var path := StripExtension(fileName);
    if StartsWith(path, "api-reference") then ReferenceUrl(path)
    else if StartsWith(path, "concepts") then Some(RootedUrl(path[|"concepts"|..]))
    else None
  }

  lemma ReferenceParts(version: string, category: string, rest: string)
    requires '/' !in version && '/' !in category
    ensures Split("api-reference/" + version + "/" + category + "/" + rest, '/')
         == ["api-reference", version, category] + Split(rest, '/')
  {
    var q := "api-reference/" + version;
    assert Split(q, '/') == ["api-reference", version] by {
      SlashAfterPrefix();
      assert '/' !in "api-reference";
      SplitWithoutSeparator("api-reference", '/');
      SplitWithoutSeparator(version, '/');
      SplitAppend("api-reference", version, '/');
    }
    var p := q + "/" + category;
    assert Split(p, '/') == ["api-reference", version, category] by {
      SplitWithoutSeparator(category, '/');
      SplitAppend(q, category, '/');
    }
    SplitAppend(p, rest, '/');
  }

  /** The URL of a reference path, given its segments. */
  lemma ReferenceUrlOf(path: string, version: string, category: string, rest: string)
    requires version == "v1.0" || version == "beta"
    requires category == "api" || category == "resources"
    requires Split(path, '/') == ["api-reference", version, category] + Split(rest, '/')
    ensures ReferenceUrl(path)
         == Some(GraphRoot + LowerStr((if category == "api" then "/api" else "/api/resources")
                                      + "/" + rest + "?view=graph-rest-"
                                      + (if version == "beta" then "beta" else "1.0")))
  {
    var parts := Split(path, '/');
    assert parts[1] == version && parts[2] == category;
    assert Join(parts[3..], '/') == rest by {
      assert parts[3..] == Split(rest, '/');
      JoinSplit(rest, '/');
    }
    assert StartsWith(version, "v") <==> version == "v1.0";
  }

  lemma SlashAfterPrefix()
    ensures "api-reference/" == "api-reference" + "/"
  {
  }

  lemma RouteLower(route: string, rest: string, v: string)
    requires route == "/api" || route == "/api/resources"
    requires v == "beta" || v == "1.0"
    ensures LowerStr(route + "/" + rest + "?view=graph-rest-" + v)
         == route + "/" + LowerStr(rest) + "?view=graph-rest-" + v
  {
    RouteLiteralsLowerCase();
    LowerStrAppend(route, "/");
    LowerStrAppend(route + "/", rest);
    LowerStrAppend(route + "/" + rest, "?view=graph-rest-");
    LowerStrAppend(route + "/" + rest + "?view=graph-rest-", v);
  }

  lemma RouteLiteralsLowerCase()
    ensures LowerStr("/api") == "/api"
    ensures LowerStr("/api/resources") == "/api/resources"
    ensures LowerStr("/") == "/"
    ensures LowerStr("?view=graph-rest-") == "?view=graph-rest-"
    ensures LowerStr("beta") == "beta"
    ensures LowerStr("1.0") == "1.0"
  {
  }

  lemma ReferencePathLowered(version: string, category: string, rest: string, ext: string)
    requires version == "v1.0" || version == "beta"
    requires category == "api" || category == "resources"
    requires '.' !in ext
    ensures GenerateGraphUrl("api-reference/" + version + "/" + category + "/" + rest + "." + ext)
         == Some(GraphRoot + LowerStr((if category == "api" then "/api" else "/api/resources")
                                      + "/" + rest + "?view=graph-rest-"
                                      + (if version == "beta" then "beta" else "1.0")))
  {
    var path := "api-reference/" + version + "/" + category + "/" + rest;
    StripExtensionOf(path, ext);
    assert StartsWith(path, "api-reference") by {
      assert path[..13] == "api-reference";
    }
    assert '/' !in version && '/' !in category;
    ReferenceParts(version, category, rest);
    ReferenceUrlOf(path, version, category, rest);
  }

  /** A reference topic `api-reference/<version>/<category>/<rest>.<ext>`
      maps to the category's route, the lower-cased rest of the path, and
      the version query (`v1.0` is shown as `1.0`). */
  lemma ReferencePath(version: string, category: string, rest: string, ext: string)
    requires version == "v1.0" || version == "beta"
    requires category == "api" || category == "resources"
    requires '.' !in ext
    ensures GenerateGraphUrl("api-reference/" + version + "/" + category + "/" + rest + "." + ext)
         == Some(GraphRoot + (if category == "api" then "/api" else "/api/resources")
                 + "/" + LowerStr(rest) + "?view=graph-rest-"
                 + (if version == "beta" then "beta" else "1.0"))
  {
    ReferencePathLowered(version, category, rest, ext);
    var route := if category == "api" then "/api" else "/api/resources";
    var v := if version == "beta" then "beta" else "1.0";
    RouteLower(route, rest, v);
    Regroup(GraphRoot, route, "/", LowerStr(rest), "?view=graph-rest-", v);
  }

  lemma Regroup(x: string, a: string, b: string, c: string, d: string, e: string)
    ensures x + (a + b + c + d + e) == x + a + b + c + d + e
  {
  }

  /** A conceptual topic `concepts<rest>.<ext>` maps to the root followed by
      the lower-cased rest, with no version query. */
  lemma ConceptPath(rest: string, ext: string)
    requires '.' !in ext
    ensures GenerateGraphUrl("concepts" + rest + "." + ext) == Some(GraphRoot + LowerStr(rest))
  {
    var path := "concepts" + rest;
    StripExtensionOf(path, ext);
    assert path[..|"concepts"|] == "concepts";
    assert path[|"concepts"|..] == rest;
    assert !StartsWith(path, "api-reference") by {
      assert path[0] == 'c';
    }
  }

  /** A reference path is rejected unless its second segment is exactly
      `v1.0` or `beta` and its third exactly `api` or `resources`. */
  lemma ReferenceSegments(fileName: string)
    requires StartsWith(StripExtension(fileName), "api-reference")
    ensures var parts := Split(StripExtension(fileName), '/');
      GenerateGraphUrl(fileName).Some? <==>
        |parts| >= 3 && parts[1] in {"v1.0", "beta"} && parts[2] in {"api", "resources"}
  {
  }

  /** A path that is neither a reference nor a conceptual topic has no URL. */
  lemma OtherPathsHaveNoUrl(fileName: string)
    requires !StartsWith(StripExtension(fileName), "api-reference")
    requires !StartsWith(StripExtension(fileName), "concepts")
    ensures GenerateGraphUrl(fileName) == None
  {
  }

  lemma ShortBaseSegments()
    ensures Split("api-reference/v1", '/') == ["api-reference", "v1"]
  {
    assert "api-reference/v1" == "api-reference" + "/" + "v1";
    assert '/' !in "api-reference" && '/' !in "v1";
    SplitWithoutSeparator("api-reference", '/');
    SplitWithoutSeparator("v1", '/');
    SplitAppend("api-reference", "v1", '/');
  }

  /** Without an extension the last `.` of a `v1.0` reference path is the
      one inside `v1.0`, so the path collapses to `api-reference/v1` and
      has no URL: `api-reference/v1.0/api/foo` is not predicted. */
  lemma ExtensionlessReferenceHasNoUrl(tail: string)
    requires '.' !in tail
    ensures GenerateGraphUrl("api-reference/v1" + "." + "0/" + tail) == None
  {
    var f := "api-reference/v1" + "." + "0/" + tail;
    var path := "api-reference/v1";
    assert StripExtension(f) == path by {
      assert f == path + "." + ("0/" + tail);
      assert '.' !in "0/";
      StripExtensionOf(path, "0/" + tail);
    }
    assert StartsWith(path, "api-reference") by {
      assert path[..13] == "api-reference";
    }
    assert |Split(path, '/')| == 2 by {
      ShortBaseSegments();
    }
  }

  // The documented examples, with each path written as its segments so
  // that the proofs need no character-by-character comparison of long
  // literals.

  lemma NoDotInMd()
    ensures '.' !in "md"
  {
  }

  lemma ResourceExampleFacts()
    ensures LowerStr("new-resource") == "new-resource"
  {
    var t := "new-resource";
    assert IsLowerCase(t) by {
      forall i | 0 <= i < |t| ensures !IsUpper(t[i]) { assert t[i] in t; }
    }
    LowerStrOfLowerCase(t);
  }

  /** The documented v1.0 resource example,
      `api-reference/v1.0/resources/new-resource.md`. */
  lemma ResourceExample()
    ensures GenerateGraphUrl("api-reference/" + "v1.0" + "/" + "resources" + "/" + "new-resource" + "." + "md")
         == Some(GraphRoot + "/api/resources" + "/" + "new-resource" + "?view=graph-rest-" + "1.0")
  {
    NoDotInMd();
    ResourceExampleFacts();
    ReferencePath("v1.0", "resources", "new-resource", "md");
  }

  lemma MixedCaseExampleFacts()
    ensures LowerStr("coachmarkLocation") == "coachmarklocation"
  {
    var u1 := "coachmark";
    var u2 := "ocation";
    assert "coachmarkLocation" == u1 + "L" + u2;
    assert IsLowerCase(u1) by {
      forall i | 0 <= i < |u1| ensures !IsUpper(u1[i]) { assert u1[i] in u1; }
    }
    assert IsLowerCase(u2) by {
      forall i | 0 <= i < |u2| ensures !IsUpper(u2[i]) { assert u2[i] in u2; }
    }
    LowerStrOfLowerCase(u1);
    LowerStrOfLowerCase(u2);
    LowerStrAppend(u1, "L");
    LowerStrAppend(u1 + "L", u2);
    assert LowerStr("L") == "l";
  }

  /** The documented mixed-case example,
      `api-reference/beta/resources/coachmarkLocation.md`: the resource
      name is lower-cased. */
  lemma MixedCaseExample()
    ensures GenerateGraphUrl("api-reference/" + "beta" + "/" + "resources" + "/" + "coachmarkLocation" + "." + "md")
         == Some(GraphRoot + "/api/resources" + "/" + "coachmarklocation" + "?view=graph-rest-" + "beta")
  {
    NoDotInMd();
    MixedCaseExampleFacts();
    ReferencePath("beta", "resources", "coachmarkLocation", "md");
  }

  lemma ConceptExampleFacts()
    ensures LowerStr("/new-conceptual-topic") == "/new-conceptual-topic"
  {
    var t := "/new-conceptual-topic";
    assert IsLowerCase(t) by {
      forall i | 0 <= i < |t| ensures !IsUpper(t[i]) { assert t[i] in t; }
    }
    LowerStrOfLowerCase(t);
  }

  /** The documented conceptual example, `concepts/new-conceptual-topic.md`. */
  lemma ConceptExample()
    ensures GenerateGraphUrl("concepts" + "/new-conceptual-topic" + "." + "md")
         == Some(GraphRoot + "/new-conceptual-topic")
  {
    NoDotInMd();
    ConceptExampleFacts();
    ConceptPath("/new-conceptual-topic", "md");
  }

  /** `getListOfNewUrls`: the predicted URLs of the files added by the pull
      request, in file order, skipping paths with no prediction. A URL is
      listed exactly when some added file predicts it. */
  function NewUrls(files: seq<PullFile>): (urls: seq<string>)
    ensures |urls| <= |files|
    ensures forall u :: u in urls ==> IsLowerCase(u) && StartsWith(u, GraphRoot)
    ensures forall u :: u in urls <==>
      exists f :: f in files && f.status == Added && GenerateGraphUrl(f.filename) == Some(u)
  {
    if |files| == 0 then []
    else
      var f := files[0];
      var rest := NewUrls(files[1..]);
      assert forall g :: g in files <==> g == f || g in files[1..];
      if f.status == Added && GenerateGraphUrl(f.filename).Some? then
        [GenerateGraphUrl(f.filename).value] + rest
      else
        rest
  }

  /** The list for `a ++ b` is the list for `a` followed by the list for `b`. */
  lemma {:induction false} NewUrlsAppend(a: seq<PullFile>, b: seq<PullFile>)
    ensures NewUrls(a + b) == NewUrls(a) + NewUrls(b)
  {
    if |a| == 0 {
      assert a + b == b;
    } else {
      assert (a + b)[0] == a[0];
      assert (a + b)[1..] == a[1..] + b;
      NewUrlsAppend(a[1..], b);
    }
  }
}
