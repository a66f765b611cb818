/** The repository's own controller, `TestController`
    (controllers/TestController.java:6-18), deployed as a loose class file in
    the directory of its package, and what the servlet does with it. The
    package and the directory are left open: the facts hold for any of them. */
module Fixtures {
  import opened Text
  import opened RouteTable
  import opened Scanner
  import opened Routing
  import opened Servlet

  const HelloText := "<h1>Hello from TestController!</h1>"
  const ListText := "<h1>List from TestController!</h1>"

  /** `@AnnotationController("test")` with two `@GetMethode` methods. */
  const TestController := ClassInfo("TestController", Some("test"), [
    MethodInfo("hello", Some("hello"), HelloText),
    MethodInfo("list", Some("list"), ListText)])

  const ClassFile := "TestController" + ClassSuffix

  /** The "Controllers" parameter names `pkg`; the class loader has one file
      URL for it, the directory `dir`, which holds `TestController.class`. */
  function TestDeployment(pkg: string, dir: string): Deployment {
    Deployment(
      Some(pkg),
      map[PackagePath(pkg) := [Url("file", dir)]],
      map[dir := [RegularFile(ClassFile)]],
      map[],
      map[pkg + "." + "TestController" := TestController],
      {})
  }

  lemma ClassFileOfFixture(pkg: string)
    ensures EndsWith(ClassFile, ClassSuffix)
    ensures FileClassName(pkg, ClassFile) == pkg + "." + "TestController"
  {
    ClassFileNamesItsClass(pkg, "TestController");
  }

  /** The `put`s of the scan: both methods, in the order `getDeclaredMethods()`
      returns them in this deployment. */
  lemma FixtureScan(pkg: string, dir: string)
    ensures ScanRegistrations(TestDeployment(pkg, dir)) == [
      Registration(TableKey("test", "hello"), Handler("TestController", "hello")),
      Registration(TableKey("test", "list"), Handler("TestController", "list"))]
  {
    var env := TestDeployment(pkg, dir);
    var puts := [
      Registration(TableKey("test", "hello"), Handler("TestController", "hello")),
      Registration(TableKey("test", "list"), Handler("TestController", "list"))];
    ClassFileOfFixture(pkg);
    assert PackageUrls(env, pkg) == [Url("file", dir)];
    var ms := TestController.methods;
    assert ms[1..][1..] == [];
    assert MethodRegistrations("test", "TestController", ms[1..][1..]) == [];
    assert MethodRegistrations("test", "TestController", ms[1..]) == [puts[1]];
    assert ClassRegistrations(TestController) == puts;
    assert EntryRegistrations(RegularFile(ClassFile), pkg, env.classes) == puts;
    assert DirectoryRegistrations([RegularFile(ClassFile)], pkg, env.classes) == puts;
    assert UrlRegistrations(Url("file", dir), pkg, env) == Some(puts);
    assert [Url("file", dir)][1..] == [];
    assert ResourceRegistrations([Url("file", dir)], pkg, env) == puts + [];
  }

  /** From an empty table, the scan leaves `/test/hello` and `/test/list`. */
  lemma FixtureTable(pkg: string, dir: string)
    ensures ApplyPuts(map[], ScanRegistrations(TestDeployment(pkg, dir))) ==
      map["/test/hello" := Handler("TestController", "hello"), "/test/list" := Handler("TestController", "list")]
  {
    FixtureScan(pkg, dir);
    assert TableKey("test", "hello") == "/test/hello" && TableKey("test", "list") == "/test/list";
  }

  /** Two tagged methods of one controller with the same route share a URL:
      the table keeps one entry, for the method whose `put` comes later. */
  lemma SameRouteLaterPutWins()
    ensures var c := ClassInfo("C", Some("p"), [MethodInfo("a", Some("x"), "A"), MethodInfo("b", Some("x"), "B")]);
      ApplyPuts(map[], ClassRegistrations(c)) == map[TableKey("p", "x") := Handler("C", "b")]
  {
    var c := ClassInfo("C", Some("p"), [MethodInfo("a", Some("x"), "A"), MethodInfo("b", Some("x"), "B")]);
    var k := TableKey("p", "x");
    var puts := [Registration(k, Handler("C", "a")), Registration(k, Handler("C", "b"))];
    assert c.methods[1..][1..] == [];
    assert ClassRegistrations(c) == puts;
    assert puts[1..][1..] == [];
  }

  lemma FixturePaths()
    ensures Normalize(MatchPath("test", "hello")) == "/testhello"
    ensures Normalize(MatchPath("test", "list")) == "/testlist"
    ensures Normalize("/test/hello") == "/test/hello"
    ensures Normalize("/testhello") == "/testhello"
    ensures Normalize("/testlist/") == "/testlist"
  {
    assert MatchPath("test", "hello") == "/testhello";
    assert MatchPath("test", "list") == "/testlist";
  }

  /** The URL in the table is not served by its method: the match path is
      `"/test" + "hello"`. `/testhello` is, and so is `/testlist/`. */
  lemma FixtureRequests(pkg: string, dir: string)
    ensures Dispatch(TestDeployment(pkg, dir), "/test/hello", "/app/test/hello") == NotFound(NotFoundPage("/app/test/hello"))
    ensures Dispatch(TestDeployment(pkg, dir), "/testhello", "/app/testhello") == HandlerOutput(HelloText)
    ensures Dispatch(TestDeployment(pkg, dir), "/testlist/", "/app/testlist/") == HandlerOutput(ListText)
  {
    FixturePaths();
    FixtureDispatch(pkg, dir, "/test/hello", "/app/test/hello", None);
    FixtureDispatch(pkg, dir, "/testhello", "/app/testhello", Some(HelloText));
    FixtureDispatch(pkg, dir, "/testlist/", "/app/testlist/", Some(ListText));
  }

  /** A request path other than "/list" with no static resource gets the
      controller's answer, or the not-found page when it has none. */
  lemma FixtureDispatch(pkg: string, dir: string, path: string, uri: string, expected: Option<string>)
    requires path != "/list"
    requires MethodsMatch(Normalize(path), "test", TestController.methods) == expected
    ensures Dispatch(TestDeployment(pkg, dir), path, uri)
         == if expected.Some? then HandlerOutput(expected.value) else NotFound(NotFoundPage(uri))
  {
    FixtureMatch(pkg, dir, path, expected);
  }

  /** The controller match of the deployment is the method loop over
      TestController's methods. */
  lemma FixtureMatch(pkg: string, dir: string, path: string, expected: Option<string>)
    requires MethodsMatch(Normalize(path), "test", TestController.methods) == expected
    ensures ControllerMatch(TestDeployment(pkg, dir), path) == expected
  {
    var env := TestDeployment(pkg, dir);
    assert PackageUrls(env, pkg) == [Url("file", dir)];
    ControllerMatchIsFilesMatch(env, path);
    FixtureFilesMatch(pkg, dir, Normalize(path), expected);
  }

  /** The match over the directory's one entry, TestController.class. */
  lemma FixtureFilesMatch(pkg: string, dir: string, np: string, expected: Option<string>)
    requires MethodsMatch(np, "test", TestController.methods) == expected
    ensures FilesMatch(np, [RegularFile(ClassFile)], pkg, TestDeployment(pkg, dir).classes) == expected
  {
    var classes := TestDeployment(pkg, dir).classes;
    ClassFileOfFixture(pkg);
    assert EntryMatch(np, RegularFile(ClassFile), pkg, classes)
        == if expected.Some? then Answer(expected.value) else Pass;
    assert [RegularFile(ClassFile)][1..] == [];
  }

  /** A servlet for the deployment, started without a context table: after
      its scan, `contextPath + "/testhello"` answers with the controller's
      result and `contextPath + "/test/hello"` with the not-found page. */
  method ServeTestController(pkg: string, dir: string, contextPath: string)
    returns (table: Table, hello: Outcome, separated: Outcome)
    ensures table == map["/test/hello" := Handler("TestController", "hello"), "/test/list" := Handler("TestController", "list")]
    ensures hello == HandlerOutput(HelloText)
    ensures separated.NotFound?
  {
    var servlet := new FrontServlet(TestDeployment(pkg, dir), None);
    servlet.ScanControllers();
    FixtureTable(pkg, dir);
    table := servlet.urlMappings;
    FixtureRequests(pkg, dir);
    var rows;
    hello, rows := servlet.Service(contextPath + "/testhello", contextPath);
    assert RequestPath(contextPath + "/testhello", contextPath) == "/testhello";
    separated, rows := servlet.Service(contextPath + "/test/hello", contextPath);
    assert RequestPath(contextPath + "/test/hello", contextPath) == "/test/hello";
  }
}
