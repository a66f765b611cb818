/** Per-request routing of `FrontServlet.service` (FrontServlet.java:111-130):
    the `/list` report, static passthrough, the annotated-controller match of
    `handleAnnotatedControllers` (:137-184) and the not-found page of
    `customServe` (:186-202). */
module Routing {
  import opened Text
  import opened Scanner

  /** Drops one trailing '/', if there is one. */
  function Normalize(p: string): (r: string)
    ensures EndsWith(p, "/") ==> p == r + "/"
    ensures !EndsWith(p, "/") ==> r == p
  {
    if EndsWith(p, "/") then p[..|p| - 1] else p
  }

  /** Normalising twice is normalising once exactly when the path does not
      end in "//": repeated slashes are not collapsed. */
  lemma NormalizeIdempotentUnlessDoubleSlash(p: string)
    ensures Normalize(Normalize(p)) == Normalize(p) <==> !EndsWith(p, "//")
  {
    if EndsWith(p, "//") {
      assert EndsWith(Normalize(p), "/") by {
        assert p[|p| - 2] == '/';
      }
    } else if EndsWith(p, "/") && |p| >= 2 {
      var q := Normalize(p);
      assert p[|p| - 2..] == [q[|q| - 1], '/'];
    }
  }

  /** A request path and the same path with one '/' appended normalise alike. */
  lemma TrailingSlashIgnored(p: string)
    requires !EndsWith(p, "/")
    ensures Normalize(p + "/") == Normalize(p) == p
  {
    assert (p + "/")[|p + "/"| - 1..] == "/";
    assert (p + "/")[..|p|] == p;
  }

  /** The path a tagged method answers to in `handleAnnotatedControllers`:
      `"/" + controller + route`, with no separator between the two. */
  function MatchPath(controller: string, route: string): (p: string)
    ensures |p| == |controller| + |route| + 1
    ensures p[0] == '/' && p[1..|controller| + 1] == controller && p[|controller| + 1..] == route
  {
    var p := "/" + controller + route;
    assert p[1..|controller| + 1] == controller;
    p
  }

  /** The table key of a method is its match path with a '/' put back
      between controller and route. */
  lemma MatchPathLacksSeparator(controller: string, route: string)
    ensures var p := MatchPath(controller, route);
      TableKey(controller, route) == p[..|controller| + 1] + "/" + p[|controller| + 1..]
  {
    var p := MatchPath(controller, route);
    assert p[..|controller| + 1] == "/" + controller && p[|controller| + 1..] == route;
  }

  /** The URL the scan registers for a tagged method with a non-empty route
      never reaches that method: after normalisation the table key is one
      character longer than the match path. */
  lemma TableKeyIsNotItsMatchPath(controller: string, route: string)
    requires route != ""
    ensures |Normalize(TableKey(controller, route))| == |Normalize(MatchPath(controller, route))| + 1
    ensures forall m: MethodInfo :: m.route == Some(route) ==> !Matches(Normalize(TableKey(controller, route)), controller, m)
  {
    var k, m := TableKey(controller, route), MatchPath(controller, route);
    assert k[|k| - 1] == route[|route| - 1] == m[|m| - 1];
    assert EndsWith(k, "/") <==> EndsWith(m, "/") by {
      assert k[|k| - 1..] == [k[|k| - 1]] && m[|m| - 1..] == [m[|m| - 1]];
    }
  }

  /** A method is tagged and its normalised match path equals the normalised
      request path `np`. */
  predicate Matches(np: string, controller: string, m: MethodInfo)
    ensures Matches(np, controller, m) <==>
      (m.route.Some? &&
       var p := MatchPath(controller, m.route.value);
       if EndsWith(p, "/") then np + "/" == p else np == p)
  {
    m.route.Some? && np == Normalize(MatchPath(controller, m.route.value))
  }

  /** The loop over a controller's declared methods: the first matching
      method's result; None when no method matches. */
  function MethodsMatch(np: string, controller: string, ms: seq<MethodInfo>): (r: Option<string>)
    ensures r.None? <==> forall j :: 0 <= j < |ms| ==> !Matches(np, controller, ms[j])
    ensures r.Some? ==> exists j :: (0 <= j < |ms| && Matches(np, controller, ms[j]) && r.value == ms[j].result
                                     && forall k :: 0 <= k < j ==> !Matches(np, controller, ms[k]))
    decreases ms
  {
    if ms == [] then None
    else if Matches(np, controller, ms[0]) then Some(ms[0].result)
    else
      var r := MethodsMatch(np, controller, ms[1..]);
      FirstMatchShifts(np, controller, ms, r);
      r
  }

  /** `r` is the result of the first method of `ms` that matches `np`, or
      None when none does. */
  ghost predicate FirstMatch(np: string, controller: string, ms: seq<MethodInfo>, r: Option<string>) {
    && (r.None? <==> forall j :: 0 <= j < |ms| ==> !Matches(np, controller, ms[j]))
    && (r.Some? ==> exists j :: (0 <= j < |ms| && Matches(np, controller, ms[j]) && r.value == ms[j].result
                                && forall k :: 0 <= k < j ==> !Matches(np, controller, ms[k])))
  }

  /** When the first method does not match, the first match of `ms` is the
      first match of its tail. */
  lemma FirstMatchShifts(np: string, controller: string, ms: seq<MethodInfo>, r: Option<string>)
    requires ms != [] && !Matches(np, controller, ms[0])
    requires FirstMatch(np, controller, ms[1..], r)
    ensures FirstMatch(np, controller, ms, r)
  {
    assert r.None? ==> forall j :: 0 <= j < |ms| ==> !Matches(np, controller, ms[j]) by {
      assert forall j :: 0 < j < |ms| ==> ms[j] == ms[1..][j - 1];
    }
    if r.Some? {
      var j :| 0 <= j < |ms[1..]| && Matches(np, controller, ms[1..][j]) && r.value == ms[1..][j].result
        && forall k :: 0 <= k < j ==> !Matches(np, controller, ms[1..][k]);
      assert ms[j + 1] == ms[1..][j];
      forall k | 0 < k < j + 1
        ensures !Matches(np, controller, ms[k])
      {
        assert ms[k] == ms[1..][k - 1];
      }
    }
  }

  /** What one top-level entry of the package directory does to the match. */
  datatype EntryVerdict =
    | Pass                       // not a class file, not a controller, or no method matches
    | Fail                       // its class is not found: the exception ends the match
    | Answer(result: string)     // a tagged method matches: its result is the answer

  /** The body of the loop over the package directory's entries. Only regular
      files ending in ".class" are looked at; their class is
      `pkg + "." + name` without ".class". */
  function EntryMatch(np: string, file: FileNode, pkg: string, classes: map<string, ClassInfo>): (v: EntryVerdict)
    ensures file.Directory? ==> v.Pass?
    ensures v.Fail? <==> file.RegularFile? && EndsWith(file.name, ClassSuffix) && FileClassName(pkg, file.name) !in classes
  {
    match file
    case Directory(_, _) => Pass
    case RegularFile(f) =>
      if !EndsWith(f, ClassSuffix) then Pass
      else if FileClassName(pkg, f) !in classes then Fail
      else
        var c := classes[FileClassName(pkg, f)];
        match c.controller
        case None => Pass
        case Some(controller) =>
          match MethodsMatch(np, controller, c.methods)
          case Some(result) => Answer(result)
          case None => Pass
  }

  /** The loop over the top-level entries of the package directory: the
      answer of the first entry that answers, unless an entry before it fails. */
  function FilesMatch(np: string, files: seq<FileNode>, pkg: string, classes: map<string, ClassInfo>): (r: Option<string>)
    ensures r.Some? ==> exists i :: (0 <= i < |files| && EntryMatch(np, files[i], pkg, classes) == Answer(r.value)
                                     && forall k :: 0 <= k < i ==> EntryMatch(np, files[k], pkg, classes).Pass?)
    ensures r.None? ==> forall i :: 0 <= i < |files| && EntryMatch(np, files[i], pkg, classes).Answer? ==>
                                     exists k :: 0 <= k < i && EntryMatch(np, files[k], pkg, classes).Fail?
    decreases files
  {
    if files == [] then None
    else
      match EntryMatch(np, files[0], pkg, classes)
      case Answer(result) => Some(result)
      case Fail => None
      case Pass =>
        var r := FilesMatch(np, files[1..], pkg, classes);
        FilesAnswerShifts(np, files, pkg, classes, r);
        r
  }

  /** `r` is an answer that follows only passing entries, or None when every
      answering entry follows a failing one. */
  ghost predicate FilesAnswer(np: string, files: seq<FileNode>, pkg: string, classes: map<string, ClassInfo>, r: Option<string>) {
    && (r.Some? ==> exists i :: (0 <= i < |files| && EntryMatch(np, files[i], pkg, classes) == Answer(r.value)
                                 && forall k :: 0 <= k < i ==> EntryMatch(np, files[k], pkg, classes).Pass?))
    && (r.None? ==> forall i :: 0 <= i < |files| && EntryMatch(np, files[i], pkg, classes).Answer? ==>
                                 exists k :: 0 <= k < i && EntryMatch(np, files[k], pkg, classes).Fail?)
  }

  /** After a passing first entry, the listing answers as its tail does. */
  lemma FilesAnswerShifts(np: string, files: seq<FileNode>, pkg: string, classes: map<string, ClassInfo>, r: Option<string>)
    requires files != [] && EntryMatch(np, files[0], pkg, classes).Pass?
    requires FilesAnswer(np, files[1..], pkg, classes, r)
    ensures FilesAnswer(np, files, pkg, classes, r)
  {
    if r.Some? {
      var tail := files[1..];
      var i :| 0 <= i < |tail| && EntryMatch(np, tail[i], pkg, classes) == Answer(r.value)
        && forall k :: 0 <= k < i ==> EntryMatch(np, tail[k], pkg, classes).Pass?;
      AnswerShifts(np, files, pkg, classes, i);
    } else {
      NoAnswerShifts(np, files, pkg, classes);
    }
  }

  /** An answer at `i` in the tail after only passing entries is one at
      `i + 1` in the listing. */
  lemma AnswerShifts(np: string, files: seq<FileNode>, pkg: string, classes: map<string, ClassInfo>, i: int)
    requires files != [] && EntryMatch(np, files[0], pkg, classes).Pass?
    requires 0 <= i < |files| - 1 && EntryMatch(np, files[1..][i], pkg, classes).Answer?
    requires forall k :: 0 <= k < i ==> EntryMatch(np, files[1..][k], pkg, classes).Pass?
    ensures EntryMatch(np, files[i + 1], pkg, classes) == EntryMatch(np, files[1..][i], pkg, classes)
    ensures forall k :: 0 <= k < i + 1 ==> EntryMatch(np, files[k], pkg, classes).Pass?
  {
    var tail := files[1..];
    assert files[i + 1] == tail[i];
    forall k | 0 < k < i + 1
      ensures EntryMatch(np, files[k], pkg, classes).Pass?
    {
      assert files[k] == tail[k - 1];
    }
  }

  /** When every answering entry of the tail follows a failing one, so does
      every answering entry of the listing. */
  lemma NoAnswerShifts(np: string, files: seq<FileNode>, pkg: string, classes: map<string, ClassInfo>)
    requires files != [] && EntryMatch(np, files[0], pkg, classes).Pass?
    requires FilesAnswer(np, files[1..], pkg, classes, None)
    ensures FilesAnswer(np, files, pkg, classes, None)
  {
    var tail := files[1..];
    forall i | 0 <= i < |files| && EntryMatch(np, files[i], pkg, classes).Answer?
      ensures exists k :: 0 <= k < i && EntryMatch(np, files[k], pkg, classes).Fail?
    {
      assert files[i] == tail[i - 1];
      assert 0 <= i - 1 < |tail| && EntryMatch(np, tail[i - 1], pkg, classes).Answer?;
      var k :| 0 <= k < i - 1 && EntryMatch(np, tail[k], pkg, classes).Fail?;
      assert files[k + 1] == tail[k];
    }
  }

  /** The entry is a class file whose class loads, is a controller, and whose
      `j`-th declared method matches `np`. */
  ghost predicate EntryHandles(np: string, file: FileNode, pkg: string, classes: map<string, ClassInfo>, j: int) {
    && file.RegularFile? && EndsWith(file.name, ClassSuffix)
    && FileClassName(pkg, file.name) in classes
    && var c := classes[FileClassName(pkg, file.name)];
       c.controller.Some? && 0 <= j < |c.methods| && Matches(np, c.controller.value, c.methods[j])
  }

  ghost function EntryMethod(file: FileNode, pkg: string, classes: map<string, ClassInfo>, j: int): MethodInfo
    requires file.RegularFile? && FileClassName(pkg, file.name) in classes
    requires 0 <= j < |classes[FileClassName(pkg, file.name)].methods|
  {
    classes[FileClassName(pkg, file.name)].methods[j]
  }

  lemma EntryMatchMeaning(np: string, file: FileNode, pkg: string, classes: map<string, ClassInfo>)
    ensures EntryMatch(np, file, pkg, classes).Fail? <==>
      file.RegularFile? && EndsWith(file.name, ClassSuffix) && FileClassName(pkg, file.name) !in classes
    ensures !EntryMatch(np, file, pkg, classes).Answer? ==> forall j :: !EntryHandles(np, file, pkg, classes, j)
    ensures EntryMatch(np, file, pkg, classes).Answer? ==>
      exists j :: (EntryHandles(np, file, pkg, classes, j)
        && EntryMatch(np, file, pkg, classes).result == EntryMethod(file, pkg, classes, j).result
        && forall l :: 0 <= l < j ==> !EntryHandles(np, file, pkg, classes, l))
  {
    var v := EntryMatch(np, file, pkg, classes);
    if file.RegularFile? && EndsWith(file.name, ClassSuffix) && FileClassName(pkg, file.name) in classes {
      var c := classes[FileClassName(pkg, file.name)];
      if c.controller.Some? {
        var r := MethodsMatch(np, c.controller.value, c.methods);
        assert v == if r.Some? then Answer(r.value) else Pass;
        if r.Some? {
          var j :| 0 <= j < |c.methods| && Matches(np, c.controller.value, c.methods[j]) && r.value == c.methods[j].result
            && forall k :: 0 <= k < j ==> !Matches(np, c.controller.value, c.methods[k]);
          assert EntryHandles(np, file, pkg, classes, j);
        }
      } else {
        assert v == Pass;
      }
    } else {
      assert !v.Answer?;
    }
  }

  /** Entry `i`, method `j` is the first handler of the listing: no earlier
      entry has a matching method, and no earlier method of entry `i` matches. */
  ghost predicate FirstHandler(np: string, files: seq<FileNode>, pkg: string, classes: map<string, ClassInfo>, i: int, j: int) {
    && 0 <= i < |files| && EntryHandles(np, files[i], pkg, classes, j)
    && (forall k, l :: 0 <= k < i ==> !EntryHandles(np, files[k], pkg, classes, l))
    && (forall l :: 0 <= l < j ==> !EntryHandles(np, files[i], pkg, classes, l))
  }

  lemma FirstHandlerShift(np: string, files: seq<FileNode>, pkg: string, classes: map<string, ClassInfo>, i: int, j: int)
    requires files != [] && forall l :: !EntryHandles(np, files[0], pkg, classes, l)
    requires FirstHandler(np, files[1..], pkg, classes, i, j)
    ensures FirstHandler(np, files, pkg, classes, i + 1, j)
  {
  }

  /** A match answers with the result of a tagged method of a controller
      class in the listing whose match path normalises to the request path;
      it is the first such method of the first such class. */
  lemma {:induction false} MatchIsFirstTaggedMethod(np: string, files: seq<FileNode>, pkg: string, classes: map<string, ClassInfo>)
    requires FilesMatch(np, files, pkg, classes).Some?
    ensures exists i, j :: (FirstHandler(np, files, pkg, classes, i, j)
                            && FilesMatch(np, files, pkg, classes).value == EntryMethod(files[i], pkg, classes, j).result)
    decreases files
  {
    var r := FilesMatch(np, files, pkg, classes);
    EntryMatchMeaning(np, files[0], pkg, classes);
    if EntryMatch(np, files[0], pkg, classes).Answer? {
      var j :| EntryHandles(np, files[0], pkg, classes, j)
        && r.value == EntryMethod(files[0], pkg, classes, j).result
        && forall l :: 0 <= l < j ==> !EntryHandles(np, files[0], pkg, classes, l);
      assert FirstHandler(np, files, pkg, classes, 0, j);
    } else {
      var tail := files[1..];
      assert FilesMatch(np, tail, pkg, classes) == r;
      MatchIsFirstTaggedMethod(np, tail, pkg, classes);
      var i, j :| FirstHandler(np, tail, pkg, classes, i, j)
        && r.value == EntryMethod(tail[i], pkg, classes, j).result;
      FirstHandlerShift(np, files, pkg, classes, i, j);
      assert tail[i] == files[i + 1];
    }
  }

  /** When every class file of the listing loads, the match succeeds exactly
      when some tagged method of some controller class in it matches. */
  lemma {:induction false} MatchCompleteWhenClassesLoad(np: string, files: seq<FileNode>, pkg: string, classes: map<string, ClassInfo>)
    requires forall i :: 0 <= i < |files| && files[i].RegularFile? && EndsWith(files[i].name, ClassSuffix) ==>
      FileClassName(pkg, files[i].name) in classes
    ensures FilesMatch(np, files, pkg, classes).Some? <==>
      exists i, j :: 0 <= i < |files| && EntryHandles(np, files[i], pkg, classes, j)
    decreases files
  {
    if files != [] {
      var tail := files[1..];
      assert forall i :: 0 <= i < |tail| ==> tail[i] == files[i + 1];
      MatchCompleteWhenClassesLoad(np, tail, pkg, classes);
      EntryMatchMeaning(np, files[0], pkg, classes);
      if EntryMatch(np, files[0], pkg, classes).Answer? {
        var j :| EntryHandles(np, files[0], pkg, classes, j);
      } else {
        if exists i, j :: 0 <= i < |files| && EntryHandles(np, files[i], pkg, classes, j) {
          var i, j :| 0 <= i < |files| && EntryHandles(np, files[i], pkg, classes, j);
          assert i > 0;
          assert EntryHandles(np, tail[i - 1], pkg, classes, j);
        }
        if exists i, j :: 0 <= i < |tail| && EntryHandles(np, tail[i], pkg, classes, j) {
          var i, j :| 0 <= i < |tail| && EntryHandles(np, tail[i], pkg, classes, j);
          assert EntryHandles(np, files[i + 1], pkg, classes, j);
        }
      }
    }
  }

  /** `handleAnnotatedControllers`: no match without the "Controllers"
      init-parameter, without a class-loader resource for the package, or when
      that resource is not an existing directory; otherwise the match over
      the directory's top-level entries. */
  function ControllerMatch(env: Deployment, path: string): (r: Option<string>)
    ensures env.controllersParam.None? ==> r.None?
    ensures r.Some? ==>
      && env.controllersParam.Some?
      && var pkg := env.controllersParam.value;
         var urls := PackageUrls(env, pkg);
         && urls != [] && urls[0].file in env.directories
         && var files := env.directories[urls[0].file];
            exists i, j :: (FirstHandler(Normalize(path), files, pkg, env.classes, i, j)
                            && r.value == EntryMethod(files[i], pkg, env.classes, j).result)
  {
    match env.controllersParam
    case None => None
    case Some(pkg) =>
      var urls := PackageUrls(env, pkg);
      if urls == [] || urls[0].file !in env.directories then None
      else
        var files := env.directories[urls[0].file];
        var r := FilesMatch(Normalize(path), files, pkg, env.classes);
        if r.Some? then MatchIsFirstTaggedMethod(Normalize(path), files, pkg, env.classes); r else r
  }

  /** With the parameter set and the package's first resource an existing
      directory, the controller match is the match over that directory's
      top-level entries. */
  lemma ControllerMatchIsFilesMatch(env: Deployment, path: string)
    requires env.controllersParam.Some?
    requires PackageUrls(env, env.controllersParam.value) != []
    requires PackageUrls(env, env.controllersParam.value)[0].file in env.directories
    ensures ControllerMatch(env, path)
      == FilesMatch(Normalize(path), env.directories[PackageUrls(env, env.controllersParam.value)[0].file],
                    env.controllersParam.value, env.classes)
  {
  }

  /** `handleAnnotatedControllers` finds no handler when the package has no
      resource URL or its first one is not an existing directory. */
  lemma ControllerMatchNeedsPackageDirectory(env: Deployment, path: string)
    requires env.controllersParam.Some?
    requires var urls := PackageUrls(env, env.controllersParam.value);
      urls == [] || urls[0].file !in env.directories
    ensures ControllerMatch(env, path).None?
  {
  }

  /** When every class file in the package directory loads,
      `handleAnnotatedControllers` answers if and only if some tagged method
      of a controller class directly in that directory matches the
      normalised request path. */
  lemma ControllerMatchCompleteWhenClassesLoad(env: Deployment, path: string)
    requires env.controllersParam.Some?
    requires PackageUrls(env, env.controllersParam.value) != []
    requires PackageUrls(env, env.controllersParam.value)[0].file in env.directories
    requires var pkg := env.controllersParam.value;
      var files := env.directories[PackageUrls(env, pkg)[0].file];
      forall i :: 0 <= i < |files| && files[i].RegularFile? && EndsWith(files[i].name, ClassSuffix) ==>
        FileClassName(pkg, files[i].name) in env.classes
    ensures var pkg := env.controllersParam.value;
      var files := env.directories[PackageUrls(env, pkg)[0].file];
      ControllerMatch(env, path).Some? <==>
        exists i, j :: 0 <= i < |files| && EntryHandles(Normalize(path), files[i], pkg, env.classes, j)
  {
    var pkg := env.controllersParam.value;
    var files := env.directories[PackageUrls(env, pkg)[0].file];
    MatchCompleteWhenClassesLoad(Normalize(path), files, pkg, env.classes);
  }

  /** A request path with one '/' appended finds the same handler. */
  lemma TrailingSlashFindsSameHandler(env: Deployment, p: string)
    requires !EndsWith(p, "/")
    ensures ControllerMatch(env, p + "/") == ControllerMatch(env, p)
  {
    TrailingSlashIgnored(p);
  }

  const NotFoundTitle := "Resource Not Found"
  const NotFoundLead := "<html>\n    <head><title>"
  const NotFoundMiddle := "</title></head>\n    <body>\n        <h1>Unknown resource</h1>\n        <p>The requested URL was not found: <strong>"
  const NotFoundTail := "</strong></p>\n    </body>\n</html>\n"

  /** The body `customServe` writes: an HTML page, titled "Resource Not
      Found", naming the raw request URI. */
  function NotFoundPage(uri: string): (page: string)
    ensures Contains(page, uri)
    ensures Contains(page, NotFoundTitle)
  {
    ContainsBoth(NotFoundLead, NotFoundTitle, NotFoundMiddle, uri, NotFoundTail);
    NotFoundLead + NotFoundTitle + NotFoundMiddle + uri + NotFoundTail
  }

  /** The four ways `service` answers a request. */
  datatype Outcome =
    | Listing                        // listUrls
    | StaticPassthrough              // defaultServe: forward to the container's default servlet
    | HandlerOutput(body: string)    // the matched controller method's result
    | NotFound(page: string)         // customServe

  /** The part of the request URI after the context path. */
  function RequestPath(uri: string, contextPath: string): (p: string)
    requires |contextPath| <= |uri|
    ensures |p| == |uri| - |contextPath| && uri == uri[..|contextPath|] + p
  {
    uri[|contextPath|..]
  }

  /** The decision chain of `service`, in its order: "/list", then an existing
      static resource, then a controller match, then the not-found page. */
  function Dispatch(env: Deployment, path: string, uri: string): (o: Outcome)
    ensures o.Listing? <==> path == "/list"
    ensures o.StaticPassthrough? <==> path != "/list" && path in env.staticResources
    ensures o.HandlerOutput? <==> path != "/list" && path !in env.staticResources && ControllerMatch(env, path).Some?
    ensures o.HandlerOutput? ==> ControllerMatch(env, path) == Some(o.body)
    ensures o.NotFound? ==> Contains(o.page, uri)
  {
    if path == "/list" then Listing
    else if path in env.staticResources then StaticPassthrough
    else match ControllerMatch(env, path)
      case Some(body) => HandlerOutput(body)
      case None => NotFound(NotFoundPage(uri))
  }
}
