/** `FrontServlet` itself (FrontServlet.java:23-226): the `urlMappings` field,
    the scanning methods that fill it, the controller match run for each
    request, `service` and `listUrls`. Each method is proved equal to the
    specification functions of `Scanner` and `Routing`. */
module Servlet {
  import opened Text
  import opened RouteTable
  import opened Scanner
  import opened Routing

  class FrontServlet {
    /** Everything the servlet reads from its container, class loader and disk. */
    const env: Deployment
    /** URL -> [className, methodName] */
    var urlMappings: Table

    /** `init`: the table is the servlet-context attribute "urlMappings" when
        it is set, and an empty table otherwise. */
    constructor (env: Deployment, contextAttribute: Option<Table>)
      ensures this.env == env
      ensures urlMappings == if contextAttribute.Some? then contextAttribute.value else map[]
    {
      this.env := env;
      match contextAttribute
      case Some(table) => urlMappings := table;
      case None => urlMappings := map[];
    }

    /** The loop over a controller class's declared methods, shared by the
        jar and the directory scan: one `put` per tagged method. */
    method RegisterController(c: ClassInfo)
      modifies this
      ensures urlMappings == ApplyPuts(old(urlMappings), ClassRegistrations(c))
    {
      if c.controller.None? {
        return;
      }
      var prefix := "/" + c.controller.value;
      ghost var todo := MethodRegistrations(c.controller.value, c.simpleName, c.methods);
      var i := 0;
      while i < |c.methods|
        invariant 0 <= i <= |c.methods|
        invariant ApplyPuts(old(urlMappings), todo)
               == ApplyPuts(urlMappings, MethodRegistrations(c.controller.value, c.simpleName, c.methods[i..]))
      {
        var m := c.methods[i];
        assert c.methods[i..][0] == m && c.methods[i..][1..] == c.methods[i + 1..];
        if m.route.Some? {
          var fullPath := prefix + "/" + m.route.value;
          urlMappings := urlMappings[fullPath := Handler(c.simpleName, m.name)];
        }
        i := i + 1;
      }
      assert c.methods[i..] == [];
    }

    /** `Class.forName(className)` and, when the class loads, its registration. */
    method LoadAndRegister(className: string)
      modifies this
      ensures urlMappings == ApplyPuts(old(urlMappings), LoadedRegistrations(className, env.classes))
    {
      if className in env.classes {
        RegisterController(env.classes[className]);
      }
    }

    /** `scanDirectory(dir, packageName)` over the listing of `dir`. */
    method ScanDirectory(files: seq<FileNode>, packageName: string)
      modifies this
      ensures urlMappings == ApplyPuts(old(urlMappings), DirectoryRegistrations(files, packageName, env.classes))
      decreases files
    {
      var i := 0;
      while i < |files|
        invariant 0 <= i <= |files|
        invariant ApplyPuts(old(urlMappings), DirectoryRegistrations(files, packageName, env.classes))
               == ApplyPuts(urlMappings, DirectoryRegistrations(files[i..], packageName, env.classes))
      {
        var file := files[i];
        assert files[i..][0] == file && files[i..][1..] == files[i + 1..];
        ghost var before := urlMappings;
        ScanEntry(file, packageName);
        ApplyPutsAppend(before, EntryRegistrations(file, packageName, env.classes),
                        DirectoryRegistrations(files[i + 1..], packageName, env.classes));
        i := i + 1;
      }
      assert files[i..] == [];
    }

    /** The body of the loop of `scanDirectory`: a subdirectory is scanned as
        a subpackage, a class file loads and registers its class. */
    method ScanEntry(file: FileNode, packageName: string)
      modifies this
      ensures urlMappings == ApplyPuts(old(urlMappings), EntryRegistrations(file, packageName, env.classes))
      decreases file
    {
      match file {
        case Directory(name, children) =>
          ScanDirectory(children, packageName + "." + name);
        case RegularFile(name) =>
          if EndsWith(name, ClassSuffix) {
            var className := packageName + "." + RemoveClassSuffixes(name);
            LoadAndRegister(className);
          }
      }
    }

    /** The loop over a jar's entries. */
    method ScanJar(entries: seq<string>, controllerPackage: string)
      modifies this
      ensures urlMappings == ApplyPuts(old(urlMappings), JarRegistrations(entries, controllerPackage, env.classes))
    {
      ghost var target := ApplyPuts(urlMappings, JarRegistrations(entries, controllerPackage, env.classes));
      var i := 0;
      assert entries[i..] == entries;
      while i < |entries|
        invariant 0 <= i <= |entries|
        invariant target == ApplyPuts(urlMappings, JarRegistrations(entries[i..], controllerPackage, env.classes))
      {
        var name := entries[i];
        assert entries[i..][0] == name && entries[i..][1..] == entries[i + 1..];
        ghost var before := urlMappings;
        ScanJarEntry(name, controllerPackage);
        ApplyPutsAppend(before, JarEntryRegistrations(name, controllerPackage, env.classes),
                        JarRegistrations(entries[i + 1..], controllerPackage, env.classes));
        i := i + 1;
      }
      assert entries[i..] == [];
    }

    /** The body of the loop over a jar's entries: an entry under the package
        path ending in ".class" names a class, which is loaded and registered. */
    method ScanJarEntry(name: string, controllerPackage: string)
      modifies this
      ensures urlMappings == ApplyPuts(old(urlMappings), JarEntryRegistrations(name, controllerPackage, env.classes))
    {
      var packagePath := ReplaceChar(controllerPackage, '.', '/');
      if StartsWith(name, packagePath) && EndsWith(name, ClassSuffix) {
        var className := RemoveClassSuffixes(ReplaceChar(name, '/', '.'));
        LoadAndRegister(className);
      }
    }

    /** The body of the loop over the resource URLs of `scanControllers`;
        `completed` is false when Java would throw out of the loop. */
    method ScanResource(resource: Url, controllerPackage: string) returns (completed: bool)
      modifies this
      ensures completed == UrlRegistrations(resource, controllerPackage, env).Some?
      ensures urlMappings == ApplyPuts(old(urlMappings),
        if completed then UrlRegistrations(resource, controllerPackage, env).value else [])
    {
      completed := true;
      if resource.protocol == "file" {
        if resource.file in env.directories {
          ScanDirectory(env.directories[resource.file], controllerPackage);
        }
      } else if resource.protocol == "jar" {
        var bang := IndexOf(resource.file, '!');
        if bang < 5 {
          return false;
        }
        var jarPath := resource.file[5..bang];
        if jarPath !in env.jars {
          return false;
        }
        ScanJar(env.jars[jarPath], controllerPackage);
      }
    }

    /** `scanControllers`: every resource URL of the controller package, in
        order; an exception (a jar URL without a '!' at position 5 or later,
        or a jar that cannot be opened) ends the scan, keeping what was put. */
    method ScanControllers()
      modifies this
      ensures urlMappings == ApplyPuts(old(urlMappings), ScanRegistrations(env))
    {
      if env.controllersParam.None? {
        return;
      }
      var controllerPackage := env.controllersParam.value;
      var resources := PackageUrls(env, controllerPackage);
      ghost var target := ApplyPuts(urlMappings, ScanRegistrations(env));
      var i := 0;
      while i < |resources|
        invariant 0 <= i <= |resources|
        invariant target == ApplyPuts(urlMappings, ResourceRegistrations(resources[i..], controllerPackage, env))
      {
        assert resources[i..][0] == resources[i] && resources[i..][1..] == resources[i + 1..];
        ResourceStep(urlMappings, resources[i..], controllerPackage, env);
        var completed := ScanResource(resources[i], controllerPackage);
        if !completed {
          return;
        }
        i := i + 1;
      }
      assert resources[i..] == [];
    }

    /** `handleAnnotatedControllers`: the result of the first tagged method of
        a controller class directly in the package directory whose
        `"/" + controller + route`, normalised, equals the normalised request
        path; None for "false". */
    method HandleAnnotatedControllers(path: string) returns (handled: Option<string>)
      ensures handled == ControllerMatch(env, path)
    {
      if env.controllersParam.None? {
        return None;
      }
      var controllerPackage := env.controllersParam.value;
      var urls := PackageUrls(env, controllerPackage);
      if urls == [] {
        return None;
      }
      var dir := urls[0].file;
      if dir !in env.directories {
        return None;
      }
      var files := env.directories[dir];
      ghost var np := Normalize(path);
      ghost var answer := FilesMatch(np, files, controllerPackage, env.classes);
      assert ControllerMatch(env, path) == answer;
      var i := 0;
      assert files[i..] == files;
      while i < |files|
        invariant 0 <= i <= |files|
        invariant answer == FilesMatch(np, files[i..], controllerPackage, env.classes)
      {
        var file := files[i];
        assert files[i..][0] == file && files[i..][1..] == files[i + 1..];
        if file.RegularFile? && EndsWith(file.name, ClassSuffix) {
          var className := RemoveClassSuffixes(file.name);
          var qualified := controllerPackage + "." + className;
          assert qualified == FileClassName(controllerPackage, file.name);
          if qualified !in env.classes {
            assert EntryMatch(np, file, controllerPackage, env.classes) == Fail;
            assert answer == None;
            return None;
          }
          var c := env.classes[qualified];
          if c.controller.Some? {
            var result := MatchMethods(path, c.controller.value, c.methods);
            if result.Some? {
              assert EntryMatch(np, file, controllerPackage, env.classes) == Answer(result.value);
              return result;
            }
          }
        }
        assert EntryMatch(np, file, controllerPackage, env.classes).Pass?;
        i := i + 1;
      }
      assert files[i..] == [];
      return None;
    }

    /** The loop over a controller's declared methods in
        `handleAnnotatedControllers`: the result of the first tagged method
        whose `"/" + controller + route`, normalised, equals the normalised
        request path. */
    method MatchMethods(path: string, controller: string, methods: seq<MethodInfo>) returns (result: Option<string>)
      ensures result == MethodsMatch(Normalize(path), controller, methods)
    {
      var prefix := "/" + controller;
      var j := 0;
      while j < |methods|
        invariant 0 <= j <= |methods|
        invariant MethodsMatch(Normalize(path), controller, methods) == MethodsMatch(Normalize(path), controller, methods[j..])
      {
        var m := methods[j];
        assert methods[j..][0] == m && methods[j..][1..] == methods[j + 1..];
        if m.route.Some? {
          var fullPath := prefix + m.route.value;
          var normalizedPath := Normalize(path);
          var normalizedFullPath := Normalize(fullPath);
          if normalizedPath == normalizedFullPath {
            return Some(m.result);
          }
        }
        j := j + 1;
      }
      assert methods[j..] == [];
      return None;
    }

    /** `listUrls`: one row per table entry, in the table's (unspecified)
        iteration order. */
    method ListUrls() returns (rows: seq<Row>)
      ensures IsListing(rows, urlMappings)
    {
      var table := urlMappings;
      rows := [];
      var pending := table.Keys;
      assert table.Keys - pending == {};
      while pending != {}
        invariant ListsAllBut(rows, pending, table)
        decreases pending
      {
        var url :| url in pending;
        ListStep(rows, pending, table, url);
        rows := rows + [RowOf(url, table[url])];
        pending := pending - {url};
      }
      ListStepsDone(rows, table);
    }

    /** `service`: the path is the request URI without its context path;
        "/list" gives the listing, an existing static resource the default
        servlet, a controller match its result, anything else the not-found
        page. The rows are those of the listing, when it is the answer. */
    method Service(uri: string, contextPath: string) returns (outcome: Outcome, rows: seq<Row>)
      requires |contextPath| <= |uri|
      ensures outcome == Dispatch(env, RequestPath(uri, contextPath), uri)
      ensures outcome.Listing? ==> IsListing(rows, urlMappings)
      ensures !outcome.Listing? ==> rows == []
    {
      var path := uri[|contextPath|..];
      if path == "/list" {
        rows := ListUrls();
        return Listing, rows;
      }
      rows := [];
      var resourceExists := path in env.staticResources;
      if resourceExists {
        outcome := StaticPassthrough;
      } else {
        var handled := HandleAnnotatedControllers(path);
        match handled
        case Some(body) => outcome := HandlerOutput(body);
        case None => outcome := NotFound(NotFoundPage(uri));
      }
    }
  }
}
