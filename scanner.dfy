/** What the servlet sees of its deployment, and the registrations that
    `scanControllers` / `scanDirectory` derive from it (FrontServlet.java:37-108).
    Reflection, the class loader, the disk and jar files are given as data. */
module Scanner {
  import opened Text
  import opened RouteTable

  /** A declared method: its name, the value of its `@GetMethode` tag if it
      has one, and the text that invoking it returns. */
  datatype MethodInfo = MethodInfo(name: string, route: Option<string>, result: string)

  /** A loadable class: `getSimpleName()`, the value of its
      `@AnnotationController` tag if present, and `getDeclaredMethods()` in
      iteration order. */
  datatype ClassInfo = ClassInfo(simpleName: string, controller: Option<string>, methods: seq<MethodInfo>)

  /** An entry of a directory listing (`File.listFiles()`). */
  datatype FileNode = Directory(name: string, children: seq<FileNode>) | RegularFile(name: string)

  /** A resource URL: its protocol and its file part (`getFile()`, which is
      also `getPath()` here since class-loader URLs carry no query). */
  datatype Url = Url(protocol: string, file: string)

  datatype Deployment = Deployment(
    /** the servlet init-parameter "Controllers" */
    controllersParam: Option<string>,
    /** `ClassLoader.getResources(name)`, by resource name, in order */
    resources: map<string, seq<Url>>,
    /** the existing directories on disk, by path, with their listings */
    directories: map<string, seq<FileNode>>,
    /** the jar files that can be opened, by path, with their entry names */
    jars: map<string, seq<string>>,
    /** `Class.forName`: the classes that load, by fully qualified name; for
        any other name it throws `ClassNotFoundException` */
    classes: map<string, ClassInfo>,
    /** the paths at which the servlet context holds a resource */
    staticResources: set<string>)

  /** `controllerPackage.replace('.', '/')` */
  function PackagePath(pkg: string): (r: string)
    ensures |r| == |pkg| && '.' !in r
    ensures forall i :: 0 <= i < |pkg| && pkg[i] != '.' ==> r[i] == pkg[i]
    ensures forall i :: 0 <= i < |pkg| && pkg[i] == '.' ==> r[i] == '/'
  {
    ReplaceChar(pkg, '.', '/')
  }

  /** The URLs the class loader enumerates for the package (none when the
      resource name is unknown to it). */
  function PackageUrls(env: Deployment, pkg: string): (urls: seq<Url>)
    ensures PackagePath(pkg) !in env.resources ==> urls == []
    ensures PackagePath(pkg) in env.resources ==> urls == env.resources[PackagePath(pkg)]
  {
    var name := PackagePath(pkg);
    if name in env.resources then env.resources[name] else []
  }

  /** The table key of a tagged method: `"/" + controller + "/" + route`. */
  function TableKey(controller: string, route: string): (k: string)
    ensures |k| == |controller| + |route| + 2
    ensures k[0] == '/' && k[1..|controller| + 1] == controller
    ensures k[|controller| + 1] == '/' && k[|controller| + 2..] == route
  {
    var k := "/" + controller + "/" + route;
    assert k[1..|controller| + 1] == controller;
    k
  }

  /** Within one controller, distinct routes give distinct keys, so methods
      with distinct routes never overwrite one another (two methods with the
      same route share a key, and the later `put` replaces the earlier). */
  lemma TableKeysOfOneController(controller: string, route1: string, route2: string)
    ensures TableKey(controller, route1) == TableKey(controller, route2) <==> route1 == route2
  {
    if TableKey(controller, route1) == TableKey(controller, route2) {
      assert route1 == TableKey(controller, route1)[|controller| + 2..];
    }
  }

  /** Method `j` of `c` is tagged, and `c` is a controller. */
  predicate Tags(c: ClassInfo, j: int) {
    c.controller.Some? && 0 <= j < |c.methods| && c.methods[j].route.Some?
  }

  /** The `put` a tagged method `m` of `controller` makes. */
  function MethodPut(controller: string, simpleName: string, m: MethodInfo): Registration
    requires m.route.Some?
  {
    Registration(TableKey(controller, m.route.value), Handler(simpleName, m.name))
  }

  /** The `put` made for method `j` of controller `c`. */
  function MethodRegistration(c: ClassInfo, j: int): Registration
    requires Tags(c, j)
  {
    MethodPut(c.controller.value, c.simpleName, c.methods[j])
  }

  /** `r` is the `put` of some tagged method of controller `c`. */
  ghost predicate RegistersMethodOf(r: Registration, c: ClassInfo) {
    exists j :: Tags(c, j) && r == MethodRegistration(c, j)
  }

  /** `r` is the `put` of a tagged method of some class that loads. */
  ghost predicate FromLoadedController(r: Registration, classes: map<string, ClassInfo>) {
    exists name :: name in classes && RegistersMethodOf(r, classes[name])
  }

  /** The `put`s of the loop over a controller's declared methods: one per
      tagged method, in the order `getDeclaredMethods()` returns them. */
  function MethodRegistrations(controller: string, simpleName: string, ms: seq<MethodInfo>): (rs: seq<Registration>)
    ensures |rs| <= |ms|
    ensures forall r :: r in rs <==>
      exists j :: 0 <= j < |ms| && ms[j].route.Some? &&
        r == MethodPut(controller, simpleName, ms[j])
    decreases ms
  {
    if ms == [] then []
    else
      var rest := MethodRegistrations(controller, simpleName, ms[1..]);
      assert forall j :: 0 < j < |ms| ==> ms[j] == ms[1..][j - 1];
      assert forall j :: 0 <= j < |ms[1..]| ==> ms[1..][j] == ms[j + 1];
      match ms[0].route
      case None => rest
      case Some(_) => [MethodPut(controller, simpleName, ms[0])] + rest
  }

  /** The number of tagged methods in `ms`. */
  function TaggedCount(ms: seq<MethodInfo>): (n: nat)
    ensures n <= |ms|
    ensures n == 0 <==> forall j :: 0 <= j < |ms| ==> ms[j].route.None?
    decreases ms
  {
    if ms == [] then 0
    else
      assert forall j :: 0 < j < |ms| ==> ms[j] == ms[1..][j - 1];
      (if ms[0].route.Some? then 1 else 0) + TaggedCount(ms[1..])
  }

  /** Exactly one `put` per tagged method, in the order `getDeclaredMethods()`
      returns them: the tagged method at `j` makes the `put` that follows
      those of the tagged methods that come before it in that order. */
  lemma {:induction false} MethodRegistrationsInOrder(controller: string, simpleName: string, ms: seq<MethodInfo>)
    ensures var rs := MethodRegistrations(controller, simpleName, ms);
      && |rs| == TaggedCount(ms)
      && forall j :: 0 <= j < |ms| && ms[j].route.Some? ==>
           && TaggedCount(ms[..j]) < |rs|
           && rs[TaggedCount(ms[..j])] == MethodPut(controller, simpleName, ms[j])
    decreases ms
  {
    if ms != [] {
      MethodRegistrationsInOrder(controller, simpleName, ms[1..]);
      MethodRegistrationsStep(controller, simpleName, ms);
      var rs := MethodRegistrations(controller, simpleName, ms);
      forall j | 0 <= j < |ms| && ms[j].route.Some?
        ensures TaggedCount(ms[..j]) < |rs|
        ensures rs[TaggedCount(ms[..j])] == MethodPut(controller, simpleName, ms[j])
      {
        if j == 0 {
          assert ms[..0] == [];
        } else {
          assert ms[j] == ms[1..][j - 1];
          LaterMethodPut(controller, simpleName, ms, j);
        }
      }
    }
  }

  /** One turn of the method loop: the head's `put`, if it is tagged, then
      the tail's. */
  lemma MethodRegistrationsStep(controller: string, simpleName: string, ms: seq<MethodInfo>)
    requires ms != []
    ensures var rs := MethodRegistrations(controller, simpleName, ms);
      var rest := MethodRegistrations(controller, simpleName, ms[1..]);
      if ms[0].route.Some? then rs == [MethodPut(controller, simpleName, ms[0])] + rest else rs == rest
  {
  }

  /** The `put` of a tagged method after the head sits where it sat in the
      tail's `put`s, shifted by the head's. */
  lemma LaterMethodPut(controller: string, simpleName: string, ms: seq<MethodInfo>, j: int)
    requires 0 < j < |ms| && ms[j].route.Some?
    requires var rs := MethodRegistrations(controller, simpleName, ms);
      var rest := MethodRegistrations(controller, simpleName, ms[1..]);
      && (if ms[0].route.Some? then rs == [MethodPut(controller, simpleName, ms[0])] + rest else rs == rest)
      && TaggedCount(ms[1..][..j - 1]) < |rest|
      && rest[TaggedCount(ms[1..][..j - 1])] == MethodPut(controller, simpleName, ms[j])
    ensures var rs := MethodRegistrations(controller, simpleName, ms);
      TaggedCount(ms[..j]) < |rs| && rs[TaggedCount(ms[..j])] == MethodPut(controller, simpleName, ms[j])
  {
    TaggedCountOfPrefix(ms, j);
  }

  /** Counting the tagged methods of a non-empty prefix starts with its head. */
  lemma TaggedCountOfPrefix(ms: seq<MethodInfo>, j: int)
    requires 0 < j <= |ms|
    ensures TaggedCount(ms[..j]) == (if ms[0].route.Some? then 1 else 0) + TaggedCount(ms[1..][..j - 1])
  {
    assert ms[..j][1..] == ms[1..][..j - 1] && ms[..j][0] == ms[0];
  }

  /** A class contributes only when it carries the controller tag. */
  function ClassRegistrations(c: ClassInfo): (rs: seq<Registration>)
    ensures forall r :: r in rs <==> RegistersMethodOf(r, c)
  {
    match c.controller
    case None => []
    case Some(controller) =>
      assert forall j :: Tags(c, j) ==>
        MethodRegistration(c, j) == MethodPut(controller, c.simpleName, c.methods[j]);
      MethodRegistrations(controller, c.simpleName, c.methods)
  }

  /** `Class.forName(className)`: a class that is not found contributes
      nothing, since the scan catches `ClassNotFoundException` per class. */
  function LoadedRegistrations(className: string, classes: map<string, ClassInfo>): (rs: seq<Registration>)
    ensures forall r :: r in rs <==> className in classes && RegistersMethodOf(r, classes[className])
    ensures forall r :: r in rs ==> FromLoadedController(r, classes)
  {
    if className in classes then ClassRegistrations(classes[className]) else []
  }

  /** `packageName + "." + file.getName().replace(".class", "")` */
  function FileClassName(pkg: string, fileName: string): (name: string)
    ensures |pkg| + 1 <= |name| <= |pkg| + 1 + |fileName|
    ensures name[..|pkg| + 1] == pkg + "."
  {
    pkg + "." + RemoveClassSuffixes(fileName)
  }

  /** A class file `f.class` (no dots in `f`) of package `pkg` names the class `pkg.f`. */
  lemma ClassFileNamesItsClass(pkg: string, f: string)
    requires '.' !in f
    ensures FileClassName(pkg, f + ClassSuffix) == pkg + "." + f
  {
    DotFreeHasNoClassSuffix(f, ClassSuffix);
    RemoveTrailingClassSuffix(f);
  }

  /** The `put`s of `scanDirectory` over a listing, entry by entry. */
  function DirectoryRegistrations(files: seq<FileNode>, pkg: string, classes: map<string, ClassInfo>): (rs: seq<Registration>)
    ensures forall r :: r in rs ==> FromLoadedController(r, classes)
    decreases files
  {
    if files == [] then []
    else EntryRegistrations(files[0], pkg, classes) + DirectoryRegistrations(files[1..], pkg, classes)
  }

  /** The `put`s for one listing entry: a subdirectory `d` is scanned, depth
      first, as package `pkg + "." + d`; a file ending in ".class"
      contributes the registrations of the class it names; other files
      contribute nothing. */
  function EntryRegistrations(file: FileNode, pkg: string, classes: map<string, ClassInfo>): (rs: seq<Registration>)
    ensures file.RegularFile? && !EndsWith(file.name, ClassSuffix) ==> rs == []
    ensures forall r :: r in rs ==> FromLoadedController(r, classes)
    decreases file
  {
    match file
    case Directory(d, children) => DirectoryRegistrations(children, pkg + "." + d, classes)
    case RegularFile(f) =>
      if EndsWith(f, ClassSuffix) then LoadedRegistrations(FileClassName(pkg, f), classes) else []
  }

  /** `x` occurs as a contiguous block inside `z`. */
  ghost predicate Infix(x: seq<Registration>, z: seq<Registration>) {
    exists a, b :: z == a + x + b
  }

  lemma InfixOfHead(x: seq<Registration>, y: seq<Registration>)
    ensures Infix(x, x + y)
  {
    assert x + y == [] + x + y;
  }

  lemma InfixOfTail(x: seq<Registration>, h: seq<Registration>, t: seq<Registration>)
    requires Infix(x, t)
    ensures Infix(x, h + t)
  {
    var a, b :| t == a + x + b;
    assert h + t == (h + a) + x + b;
  }

  lemma InfixTransitive(x: seq<Registration>, y: seq<Registration>, z: seq<Registration>)
    requires Infix(x, y) && Infix(y, z)
    ensures Infix(x, z)
  {
    var a, b :| y == a + x + b;
    var c, d :| z == c + y + d;
    assert z == (c + a) + x + (b + d);
  }

  /** The package the directory scan assigns to the directory reached through `dirs`. */
  function SubPackage(pkg: string, dirs: seq<string>): string
    decreases dirs
  {
    if dirs == [] then pkg else SubPackage(pkg + "." + dirs[0], dirs[1..])
  }

  /** A regular file `f` sits in the directory reached from `files` through `dirs`. */
  ghost predicate Located(files: seq<FileNode>, dirs: seq<string>, f: string)
    decreases dirs
  {
    if dirs == [] then RegularFile(f) in files
    else exists i :: (0 <= i < |files| && files[i].Directory? && files[i].name == dirs[0]
                      && Located(files[i].children, dirs[1..], f))
  }

  lemma {:induction false} EntryIsInfix(files: seq<FileNode>, i: nat, pkg: string, classes: map<string, ClassInfo>)
    requires i < |files|
    ensures Infix(EntryRegistrations(files[i], pkg, classes), DirectoryRegistrations(files, pkg, classes))
    decreases i
  {
    var head := EntryRegistrations(files[0], pkg, classes);
    var tail := DirectoryRegistrations(files[1..], pkg, classes);
    DirectoryRegistrationsStep(files, pkg, classes);
    if i == 0 {
      InfixOfHead(head, tail);
    } else {
      EntryIsInfix(files[1..], i - 1, pkg, classes);
      assert files[1..][i - 1] == files[i];
      InfixOfTail(EntryRegistrations(files[i], pkg, classes), head, tail);
    }
  }

  /** One turn of the loop over a directory listing. */
  lemma DirectoryRegistrationsStep(files: seq<FileNode>, pkg: string, classes: map<string, ClassInfo>)
    requires files != []
    ensures DirectoryRegistrations(files, pkg, classes)
         == EntryRegistrations(files[0], pkg, classes) + DirectoryRegistrations(files[1..], pkg, classes)
  {
  }

  /** Wherever a class file sits below the scanned directory, the directory
      scan performs its class's registrations, as one block, under the
      package name built from the directory names on the way. */
  lemma {:induction false} NestedClassFileIsScanned(files: seq<FileNode>, pkg: string, dirs: seq<string>, f: string, classes: map<string, ClassInfo>)
    requires Located(files, dirs, f)
    requires EndsWith(f, ClassSuffix)
    ensures Infix(LoadedRegistrations(FileClassName(SubPackage(pkg, dirs), f), classes),
                  DirectoryRegistrations(files, pkg, classes))
    decreases dirs
  {
    var found := LoadedRegistrations(FileClassName(SubPackage(pkg, dirs), f), classes);
    if dirs == [] {
      var i :| 0 <= i < |files| && files[i] == RegularFile(f);
      EntryIsInfix(files, i, pkg, classes);
      assert EntryRegistrations(files[i], pkg, classes) == found;
    } else {
      var i :| 0 <= i < |files| && files[i].Directory? && files[i].name == dirs[0]
        && Located(files[i].children, dirs[1..], f);
      var sub := pkg + "." + dirs[0];
      NestedClassFileIsScanned(files[i].children, sub, dirs[1..], f, classes);
      EntryIsInfix(files, i, pkg, classes);
      assert EntryRegistrations(files[i], pkg, classes) == DirectoryRegistrations(files[i].children, sub, classes);
      InfixTransitive(found, DirectoryRegistrations(files[i].children, sub, classes),
                      DirectoryRegistrations(files, pkg, classes));
    }
  }

  /** A tagged method of a controller whose class file sits anywhere below
      the scanned directory gets its table URL; that URL maps to the method
      unless another registration of the scan puts a different handler
      there. */
  lemma DirectoryScanRegistersTaggedMethod(m: Table, files: seq<FileNode>, pkg: string, dirs: seq<string>, f: string,
                                           classes: map<string, ClassInfo>, j: int)
    requires Located(files, dirs, f) && EndsWith(f, ClassSuffix)
    requires FileClassName(SubPackage(pkg, dirs), f) in classes
    requires Tags(classes[FileClassName(SubPackage(pkg, dirs), f)], j)
    ensures var reg := MethodRegistration(classes[FileClassName(SubPackage(pkg, dirs), f)], j);
      var rs := DirectoryRegistrations(files, pkg, classes);
      && reg.url in ApplyPuts(m, rs)
      && ((forall r :: r in rs && r.url == reg.url ==> r.handler == reg.handler) ==> ApplyPuts(m, rs)[reg.url] == reg.handler)
  {
    var name := FileClassName(SubPackage(pkg, dirs), f);
    var reg := MethodRegistration(classes[name], j);
    var rs := DirectoryRegistrations(files, pkg, classes);
    NestedClassFileIsScanned(files, pkg, dirs, f, classes);
    assert reg in LoadedRegistrations(name, classes);
    var a, b :| rs == a + LoadedRegistrations(name, classes) + b;
    assert reg in rs;
    RegisteredUrlIsMapped(m, rs, reg);
  }

  /** A listing that holds every entry of `small` locates what `small` locates. */
  lemma {:induction false} LocatedInLarger(small: seq<FileNode>, big: seq<FileNode>, dirs: seq<string>, f: string)
    requires forall x :: x in small ==> x in big
    requires Located(small, dirs, f)
    ensures Located(big, dirs, f)
  {
    if dirs != [] {
      var i :| 0 <= i < |small| && small[i].Directory? && small[i].name == dirs[0]
        && Located(small[i].children, dirs[1..], f);
      assert small[i] in big;
      var k :| 0 <= k < |big| && big[k] == small[i];
    }
  }

  /** Every registration of a directory scan comes from a class file somewhere
      below the directory, named under the package built from the
      directory names on the way. */
  lemma {:induction false} DirectoryRegistrationSource(files: seq<FileNode>, pkg: string, classes: map<string, ClassInfo>, r: Registration)
    requires r in DirectoryRegistrations(files, pkg, classes)
    ensures exists dirs, f :: (Located(files, dirs, f) && EndsWith(f, ClassSuffix)
                               && r in LoadedRegistrations(FileClassName(SubPackage(pkg, dirs), f), classes))
    decreases files
  {
    if r in EntryRegistrations(files[0], pkg, classes) {
      EntryRegistrationSource(files[0], pkg, classes, r);
      var dirs, f :| Located([files[0]], dirs, f) && EndsWith(f, ClassSuffix)
        && r in LoadedRegistrations(FileClassName(SubPackage(pkg, dirs), f), classes);
      LocatedInLarger([files[0]], files, dirs, f);
    } else {
      DirectoryRegistrationSource(files[1..], pkg, classes, r);
      var dirs, f :| Located(files[1..], dirs, f) && EndsWith(f, ClassSuffix)
        && r in LoadedRegistrations(FileClassName(SubPackage(pkg, dirs), f), classes);
      LocatedInLarger(files[1..], files, dirs, f);
    }
  }

  lemma {:induction false} EntryRegistrationSource(file: FileNode, pkg: string, classes: map<string, ClassInfo>, r: Registration)
    requires r in EntryRegistrations(file, pkg, classes)
    ensures exists dirs, f :: (Located([file], dirs, f) && EndsWith(f, ClassSuffix)
                               && r in LoadedRegistrations(FileClassName(SubPackage(pkg, dirs), f), classes))
    decreases file
  {
    match file
    case RegularFile(f) =>
      assert Located([file], [], f);
    case Directory(d, children) =>
      DirectoryRegistrationSource(children, pkg + "." + d, classes, r);
      var dirs, f :| Located(children, dirs, f) && EndsWith(f, ClassSuffix)
        && r in LoadedRegistrations(FileClassName(SubPackage(pkg + "." + d, dirs), f), classes);
      LocatedThroughDirectory(d, children, dirs, f);
      SubPackageStep(pkg, d, dirs);
      var path := [d] + dirs;
      assert Located([file], path, f) && EndsWith(f, ClassSuffix)
        && r in LoadedRegistrations(FileClassName(SubPackage(pkg, path), f), classes);
  }

  lemma LocatedThroughDirectory(d: string, children: seq<FileNode>, dirs: seq<string>, f: string)
    requires Located(children, dirs, f)
    ensures Located([Directory(d, children)], [d] + dirs, f)
  {
    var path := [d] + dirs;
    var files := [Directory(d, children)];
    assert path[0] == d && path[1..] == dirs;
    assert files[0].Directory? && files[0].name == path[0] && Located(files[0].children, path[1..], f);
  }

  lemma SubPackageStep(pkg: string, d: string, dirs: seq<string>)
    ensures SubPackage(pkg, [d] + dirs) == SubPackage(pkg + "." + d, dirs)
  {
    assert ([d] + dirs)[1..] == dirs;
  }

  /** The class a jar entry names, if the entry is considered at all: it must
      start with the package path and end with ".class"; its class name is the
      entry name with '/' made '.' and every ".class" removed. */
  function JarEntryClassName(pkg: string, entry: string): (r: Option<string>)
    ensures r.Some? <==> StartsWith(entry, PackagePath(pkg)) && EndsWith(entry, ClassSuffix)
    ensures r.Some? ==> |r.value| <= |entry| && '/' !in r.value
  {
    if StartsWith(entry, PackagePath(pkg)) && EndsWith(entry, ClassSuffix)
    then
      RemovalAddsNoChar(ReplaceChar(entry, '/', '.'), '/');
      Some(RemoveClassSuffixes(ReplaceChar(entry, '/', '.')))
    else None
  }

  /** An entry `b + ".class"` under the package path names the class `b`
      with '/' made '.', provided no ".class" occurrence starts inside it. */
  lemma JarEntryNamesItsClass(pkg: string, b: string)
    requires StartsWith(b, PackagePath(pkg))
    requires forall i :: 0 <= i < |b| ==>
      !StartsWith(ReplaceChar(b, '/', '.')[i..] + ClassSuffix, ClassSuffix)
    ensures JarEntryClassName(pkg, b + ClassSuffix) == Some(ReplaceChar(b, '/', '.'))
  {
    ConsideredJarEntry(pkg, b);
    SlashesOfClassFile(b);
    RemoveTrailingClassSuffix(ReplaceChar(b, '/', '.'));
  }

  lemma ConsideredJarEntry(pkg: string, b: string)
    requires StartsWith(b, PackagePath(pkg))
    ensures StartsWith(b + ClassSuffix, PackagePath(pkg)) && EndsWith(b + ClassSuffix, ClassSuffix)
  {
  }

  lemma SlashesOfClassFile(b: string)
    ensures ReplaceChar(b + ClassSuffix, '/', '.') == ReplaceChar(b, '/', '.') + ClassSuffix
  {
  }

  /** The two scans name a class file below a directory called "classes"
      differently. The directory scan rewrites only the file name and gives
      `pkg.classes.F`. The jar scan rewrites the whole dotted entry name, so
      it also drops the ".class" that begins ".classes", and gives
      `pkg` + "es." + `F`, which is another class. This holds for any
      package without '/' in which no ".class" starts, dotted or not, and
      any file name `F` without '.' or '/' that does not start with "class". */
  lemma JarAndDirectoryDisagreeOnClassesSegment(pkg: string, f: string)
    requires '/' !in pkg && forall i :: 0 <= i < |pkg| ==> !StartsWith(pkg[i..] + ClassSuffix, ClassSuffix)
    requires '.' !in f && '/' !in f && !StartsWith(f, "class")
    ensures FileClassName(SubPackage(pkg, ["classes"]), f + ClassSuffix) == pkg + "." + "classes" + "." + f
    ensures JarEntryClassName(pkg, PackagePath(pkg) + "/" + "classes" + "/" + f + ClassSuffix) == Some(pkg + "es" + "." + f)
  {
    DirectoryNameOfClassesFile(pkg, f);
    JarNameOfClassesEntry(pkg, f);
  }

  lemma DirectoryNameOfClassesFile(pkg: string, f: string)
    requires '.' !in f
    ensures FileClassName(SubPackage(pkg, ["classes"]), f + ClassSuffix) == pkg + "." + "classes" + "." + f
  {
    assert SubPackage(pkg, ["classes"]) == pkg + "." + "classes";
    ClassFileNamesItsClass(pkg + "." + "classes", f);
  }

  lemma JarNameOfClassesEntry(pkg: string, f: string)
    requires '/' !in pkg && forall i :: 0 <= i < |pkg| ==> !StartsWith(pkg[i..] + ClassSuffix, ClassSuffix)
    requires '.' !in f && '/' !in f && !StartsWith(f, "class")
    ensures JarEntryClassName(pkg, PackagePath(pkg) + "/" + "classes" + "/" + f + ClassSuffix) == Some(pkg + "es" + "." + f)
  {
    var b := PackagePath(pkg) + "/" + "classes" + "/" + f;
    PrefixStarts(PackagePath(pkg), "/" + "classes" + "/" + f);
    assert PackagePath(pkg) + ("/" + "classes" + "/" + f) == b;
    RemovalInClassesEntry(pkg, f);
    JarEntryNamed(pkg, b, pkg + "es" + "." + f);
  }

  lemma PrefixStarts(a: string, rest: string)
    ensures StartsWith(a + rest, a)
  {
    assert (a + rest)[..|a|] == a;
  }

  /** A considered entry `b + ".class"` names whatever the removal makes of its dotted form. */
  lemma JarEntryNamed(pkg: string, b: string, name: string)
    requires StartsWith(b, PackagePath(pkg))
    requires RemoveClassSuffixes(ReplaceChar(b + ClassSuffix, '/', '.')) == name
    ensures JarEntryClassName(pkg, b + ClassSuffix) == Some(name)
  {
    ConsideredJarEntry(pkg, b);
  }

  lemma RemovalInClassesEntry(pkg: string, f: string)
    requires '/' !in pkg && forall i :: 0 <= i < |pkg| ==> !StartsWith(pkg[i..] + ClassSuffix, ClassSuffix)
    requires '.' !in f && '/' !in f && !StartsWith(f, "class")
    ensures RemoveClassSuffixes(ReplaceChar(PackagePath(pkg) + "/" + "classes" + "/" + f + ClassSuffix, '/', '.'))
         == pkg + "es" + "." + f
  {
    DottedClassesEntry(pkg, f);
    DropClassesSegment(pkg, f);
    assert pkg + ("es" + "." + f) == pkg + "es" + "." + f;
  }

  /** The dotted form of the jar entry `pkgpath/classes/f.class`, with
      ".class" split off at the start of ".classes". */
  lemma DottedClassesEntry(pkg: string, f: string)
    requires '/' !in pkg && '/' !in f
    ensures ReplaceChar(PackagePath(pkg) + "/" + "classes" + "/" + f + ClassSuffix, '/', '.')
         == pkg + ClassSuffix + ("es" + "." + f + ClassSuffix)
  {
    DottedEntry(PackagePath(pkg), "classes", f);
    PackagePathRestored(pkg);
    ClassesSegment(pkg, f);
  }

  /** Making '/' into '.' again gives back a package name without '/'. */
  lemma PackagePathRestored(pkg: string)
    requires '/' !in pkg
    ensures ReplaceChar(PackagePath(pkg), '/', '.') == pkg
  {
    var back := ReplaceChar(PackagePath(pkg), '/', '.');
    assert forall i :: 0 <= i < |pkg| ==> back[i] == pkg[i];
  }

  /** Removal in `pkg.class` + "es." + `F.class`: both occurrences go. */
  lemma DropClassesSegment(pkg: string, f: string)
    requires forall i :: 0 <= i < |pkg| ==> !StartsWith(pkg[i..] + ClassSuffix, ClassSuffix)
    requires '.' !in f && !StartsWith(f, "class")
    ensures RemoveClassSuffixes(pkg + ClassSuffix + ("es" + "." + f + ClassSuffix)) == pkg + ("es" + "." + f)
  {
    var c := "es" + "." + f + ClassSuffix;
    NoClassSuffixWhateverFollows(pkg, c);
    RemoveFirstClassSuffix(pkg, c);
    NoClassSuffixInsideEsSegment(f);
    RemoveTrailingClassSuffix("es" + "." + f);
  }

  /** Replacing '/' by '.' in `a + "/" + b`, for `a` without '/'. */
  lemma ReplaceAfterSeparator(a: string, b: string)
    requires '/' !in a
    ensures ReplaceChar(a + "/" + b, '/', '.') == a + "." + ReplaceChar(b, '/', '.')
  {
    ReplaceCharAppend(a + "/", b, '/', '.');
    ReplaceCharAppend(a, "/", '/', '.');
    ReplaceAbsentChar(a, '/', '.');
  }
  /** The dotted form of the jar entry `a/seg/f.class`. */
  lemma DottedEntry(a: string, seg: string, f: string)
    requires '/' !in seg && '/' !in f
    ensures ReplaceChar(a + "/" + seg + "/" + f + ClassSuffix, '/', '.')
         == ReplaceChar(a, '/', '.') + "." + seg + "." + f + ClassSuffix
  {
    var dotted := ReplaceChar(a, '/', '.');
    Regroup(a, "/", seg, "/", f, ClassSuffix);
    DottedHead(a, seg + "/" + f + ClassSuffix);
    DottedClassFile(seg, f);
    Regroup(dotted, ".", seg, ".", f, ClassSuffix);
  }

  lemma Regroup(a: string, b: string, c: string, d: string, e: string, g: string)
    ensures a + b + c + d + e + g == a + b + (c + d + e + g)
  {
  }

  /** Replacing '/' by '.' in `a + "/" + rest`. */
  lemma DottedHead(a: string, rest: string)
    ensures ReplaceChar(a + "/" + rest, '/', '.') == ReplaceChar(a, '/', '.') + "." + ReplaceChar(rest, '/', '.')
  {
    ReplaceCharAppend(a + "/", rest, '/', '.');
    ReplaceCharAppend(a, "/", '/', '.');
  }

  /** The dotted form of `seg/f.class`, for `seg` and `f` without '/'. */
  lemma DottedClassFile(seg: string, f: string)
    requires '/' !in seg && '/' !in f
    ensures ReplaceChar(seg + "/" + f + ClassSuffix, '/', '.') == seg + "." + f + ClassSuffix
  {
    var file := f + ClassSuffix;
    assert seg + "/" + f + ClassSuffix == seg + "/" + file;
    ReplaceAfterSeparator(seg, file);
    assert '/' !in file;
    ReplaceAbsentChar(file, '/', '.');
    assert seg + "." + file == seg + "." + f + ClassSuffix;
  }

  /** ".classes." begins with ".class". */
  lemma ClassesSegment(pkg: string, f: string)
    ensures pkg + "." + "classes" + "." + f + ClassSuffix == pkg + ClassSuffix + ("es" + "." + f + ClassSuffix)
  {
    var seg: string := ['c', 'l', 'a', 's', 's', 'e', 's'];
    assert "." + seg == ClassSuffix + "es";
  }

  lemma NoClassSuffixInsideEsSegment(f: string)
    requires '.' !in f && !StartsWith(f, "class")
    ensures forall i :: 0 <= i < |"es" + "." + f| ==> !StartsWith(("es" + "." + f)[i..] + ClassSuffix, ClassSuffix)
  {
    var b := "es" + "." + f;
    forall i | 0 <= i < |b| ensures !StartsWith(b[i..] + ClassSuffix, ClassSuffix) {
      var s := b[i..] + ClassSuffix;
      if i < 2 {
        assert s[0] == b[i] != '.';
      } else if i == 2 {
        assert b[i..] == "." + f;
        if |f| >= 5 {
          assert s[1..6] == f[..5];
        } else {
          assert s[1 + |f|] == '.';
        }
      } else {
        assert s[0] == f[i - 3];
      }
    }
  }

  /** The `put`s for one jar entry: those of the class it names, when it is
      considered and that class loads. */
  function JarEntryRegistrations(entry: string, pkg: string, classes: map<string, ClassInfo>): (rs: seq<Registration>)
    ensures forall r :: r in rs <==>
      JarEntryClassName(pkg, entry).Some? && JarEntryClassName(pkg, entry).value in classes
      && RegistersMethodOf(r, classes[JarEntryClassName(pkg, entry).value])
    ensures forall r :: r in rs ==> FromLoadedController(r, classes)
  {
    match JarEntryClassName(pkg, entry)
    case None => []
    case Some(className) => LoadedRegistrations(className, classes)
  }

  /** The `put`s of the loop over a jar's entries: a registration is made
      exactly when some entry makes it. */
  function JarRegistrations(entries: seq<string>, pkg: string, classes: map<string, ClassInfo>): (rs: seq<Registration>)
    ensures forall r :: r in rs <==> exists i :: 0 <= i < |entries| && r in JarEntryRegistrations(entries[i], pkg, classes)
    ensures forall r :: r in rs ==> FromLoadedController(r, classes)
    decreases entries
  {
    if entries == [] then []
    else
      assert forall i :: 0 < i < |entries| ==> entries[i] == entries[1..][i - 1];
      assert forall i :: 0 <= i < |entries[1..]| ==> entries[1..][i] == entries[i + 1];
      JarEntryRegistrations(entries[0], pkg, classes) + JarRegistrations(entries[1..], pkg, classes)
  }

  /** One turn of the loop over a jar's entries. */
  lemma JarRegistrationsStep(entries: seq<string>, pkg: string, classes: map<string, ClassInfo>)
    requires entries != []
    ensures JarRegistrations(entries, pkg, classes)
         == JarEntryRegistrations(entries[0], pkg, classes) + JarRegistrations(entries[1..], pkg, classes)
  {
  }

  lemma {:induction false} JarEntryIsInfix(entries: seq<string>, i: nat, pkg: string, classes: map<string, ClassInfo>)
    requires i < |entries|
    ensures Infix(JarEntryRegistrations(entries[i], pkg, classes), JarRegistrations(entries, pkg, classes))
    decreases i
  {
    var head := JarEntryRegistrations(entries[0], pkg, classes);
    var tail := JarRegistrations(entries[1..], pkg, classes);
    JarRegistrationsStep(entries, pkg, classes);
    if i == 0 {
      InfixOfHead(head, tail);
    } else {
      JarEntryIsInfix(entries[1..], i - 1, pkg, classes);
      assert entries[1..][i - 1] == entries[i];
      InfixOfTail(JarEntryRegistrations(entries[i], pkg, classes), head, tail);
    }
  }

  /** A tagged method of a controller named by a considered jar entry gets
      its table URL; that URL maps to the method unless another registration
      of the jar puts a different handler there. */
  lemma JarScanRegistersTaggedMethod(m: Table, entries: seq<string>, i: int, pkg: string, classes: map<string, ClassInfo>, j: int)
    requires 0 <= i < |entries| && JarEntryClassName(pkg, entries[i]).Some?
    requires JarEntryClassName(pkg, entries[i]).value in classes
    requires Tags(classes[JarEntryClassName(pkg, entries[i]).value], j)
    ensures var reg := MethodRegistration(classes[JarEntryClassName(pkg, entries[i]).value], j);
      var rs := JarRegistrations(entries, pkg, classes);
      && reg.url in ApplyPuts(m, rs)
      && ((forall r :: r in rs && r.url == reg.url ==> r.handler == reg.handler) ==> ApplyPuts(m, rs)[reg.url] == reg.handler)
  {
    var reg := MethodRegistration(classes[JarEntryClassName(pkg, entries[i]).value], j);
    assert reg in JarEntryRegistrations(entries[i], pkg, classes);
    RegisteredUrlIsMapped(m, JarRegistrations(entries, pkg, classes), reg);
  }

  /** `path.substring(5, path.indexOf("!"))`; None where Java throws, that is
      when there is no '!' or the first one stands before position 5. */
  function JarPath(path: string): (r: Option<string>)
    ensures r.None? <==> '!' !in path || '!' in path[..if |path| < 5 then |path| else 5]
    ensures r.Some? ==> (5 + |r.value| < |path| && path[5..5 + |r.value|] == r.value
                         && path[5 + |r.value|] == '!' && '!' !in path[..5 + |r.value|])
  {
    var bang := IndexOf(path, '!');
    if 5 <= bang then
      assert path[..5] == path[..bang][..5];
      Some(path[5..bang])
    else
      assert bang >= 0 ==> path[..if |path| < 5 then |path| else 5][bang] == '!';
      None
  }

  /** The `put`s for one resource URL of the package, or None when handling
      it throws. A "file" URL naming an existing directory is scanned; a
      "jar" URL opens the jar at the path cut out of the URL and scans its
      entries; other URLs are ignored. A jar path that cannot be cut out, or
      a jar that cannot be opened, throws before anything is put. */
  function UrlRegistrations(url: Url, pkg: string, env: Deployment): (r: Option<seq<Registration>>)
    ensures r.None? <==> url.protocol == "jar" && (JarPath(url.file).None? || JarPath(url.file).value !in env.jars)
    ensures r.Some? ==> forall x :: x in r.value ==> FromLoadedController(x, env.classes)
    ensures url.protocol == "file" && url.file in env.directories ==>
      r == Some(DirectoryRegistrations(env.directories[url.file], pkg, env.classes))
    ensures url.protocol == "jar" && JarPath(url.file).Some? && JarPath(url.file).value in env.jars ==>
      r == Some(JarRegistrations(env.jars[JarPath(url.file).value], pkg, env.classes))
    ensures (url.protocol != "jar" && (url.protocol != "file" || url.file !in env.directories)) ==> r == Some([])
  {
    if url.protocol == "file" then
      if url.file in env.directories
      then Some(DirectoryRegistrations(env.directories[url.file], pkg, env.classes))
      else Some([])
    else if url.protocol == "jar" then
      match JarPath(url.file)
      case None => None
      case Some(jarPath) =>
        if jarPath in env.jars then Some(JarRegistrations(env.jars[jarPath], pkg, env.classes)) else None
    else Some([])
  }

  /** The `put`s of the loop over the package's resource URLs, in order; the
      first URL that throws ends the loop (the exception is caught outside it). */
  function ResourceRegistrations(urls: seq<Url>, pkg: string, env: Deployment): (rs: seq<Registration>)
    ensures forall r :: r in rs ==> FromLoadedController(r, env.classes)
    decreases urls
  {
    if urls == [] then []
    else match UrlRegistrations(urls[0], pkg, env)
      case None => []
      case Some(rs) => rs + ResourceRegistrations(urls[1..], pkg, env)
  }

  /** Everything `scanControllers` puts, in order; nothing without the
      "Controllers" init-parameter. */
  function ScanRegistrations(env: Deployment): (rs: seq<Registration>)
    ensures env.controllersParam.None? ==> rs == []
    ensures forall r :: r in rs ==> FromLoadedController(r, env.classes)
  {
    match env.controllersParam
    case None => []
    case Some(pkg) => ResourceRegistrations(PackageUrls(env, pkg), pkg, env)
  }

  /** One turn of the loop over the resource URLs: a URL that throws puts
      nothing and ends the loop; otherwise its `put`s come before the rest. */
  lemma ResourceStep(m: Table, urls: seq<Url>, pkg: string, env: Deployment)
    requires urls != []
    ensures UrlRegistrations(urls[0], pkg, env).None? ==> ApplyPuts(m, ResourceRegistrations(urls, pkg, env)) == m
    ensures UrlRegistrations(urls[0], pkg, env).Some? ==>
      ApplyPuts(m, ResourceRegistrations(urls, pkg, env))
      == ApplyPuts(ApplyPuts(m, UrlRegistrations(urls[0], pkg, env).value), ResourceRegistrations(urls[1..], pkg, env))
  {
    if UrlRegistrations(urls[0], pkg, env).Some? {
      ApplyPutsAppend(m, UrlRegistrations(urls[0], pkg, env).value, ResourceRegistrations(urls[1..], pkg, env));
    }
  }

  /** A URL that throws ends the scan there: the URLs from it on
      contribute nothing, whatever they hold. */
  lemma {:induction false} FailingUrlEndsScan(urls: seq<Url>, pkg: string, env: Deployment, i: nat)
    requires i < |urls| && UrlRegistrations(urls[i], pkg, env).None?
    ensures ResourceRegistrations(urls, pkg, env) == ResourceRegistrations(urls[..i], pkg, env)
    decreases i
  {
    if i == 0 {
      assert urls[..i] == [];
    } else {
      assert urls[..i][0] == urls[0] && urls[..i][1..] == urls[1..][..i - 1];
      if UrlRegistrations(urls[0], pkg, env).Some? {
        FailingUrlEndsScan(urls[1..], pkg, env, i - 1);
      }
    }
  }

  /** The URLs before the first one that throws are all handled: each
      puts its registrations, as one block, in the scan. */
  lemma {:induction false} UrlBeforeFailureIsScanned(urls: seq<Url>, pkg: string, env: Deployment, i: nat)
    requires i < |urls|
    requires forall k :: 0 <= k <= i ==> UrlRegistrations(urls[k], pkg, env).Some?
    ensures Infix(UrlRegistrations(urls[i], pkg, env).value, ResourceRegistrations(urls, pkg, env))
    decreases i
  {
    var head := UrlRegistrations(urls[0], pkg, env).value;
    var tail := ResourceRegistrations(urls[1..], pkg, env);
    assert ResourceRegistrations(urls, pkg, env) == head + tail;
    if i == 0 {
      InfixOfHead(head, tail);
    } else {
      assert forall k :: 0 <= k < |urls| - 1 ==> urls[1..][k] == urls[k + 1];
      UrlBeforeFailureIsScanned(urls[1..], pkg, env, i - 1);
      InfixOfTail(UrlRegistrations(urls[i], pkg, env).value, head, tail);
    }
  }

  /** `r` is one of the `put`s of the URL at position `i`, and none of the
      URLs before it throws. */
  ghost predicate PutByUrl(env: Deployment, i: int, r: Registration) {
    && env.controllersParam.Some?
    && var urls := PackageUrls(env, env.controllersParam.value);
       && 0 <= i < |urls|
       && (forall k :: 0 <= k <= i ==> UrlRegistrations(urls[k], env.controllersParam.value, env).Some?)
       && r in UrlRegistrations(urls[i], env.controllersParam.value, env).value
  }

  /** A `put` of a URL reached before any failure is made by `scanControllers`:
      its URL is in the table afterwards, mapped to its handler when no other
      `put` of the scan for that URL differs. */
  lemma ScanRegistersUrlPut(m: Table, env: Deployment, i: int, reg: Registration)
    requires PutByUrl(env, i, reg)
    ensures var rs := ScanRegistrations(env);
      && reg in rs && reg.url in ApplyPuts(m, rs)
      && ((forall r :: r in rs && r.url == reg.url ==> r.handler == reg.handler) ==> ApplyPuts(m, rs)[reg.url] == reg.handler)
  {
    var pkg := env.controllersParam.value;
    var urls := PackageUrls(env, pkg);
    UrlBeforeFailureIsScanned(urls, pkg, env, i);
    var a, b :| ResourceRegistrations(urls, pkg, env) == a + UrlRegistrations(urls[i], pkg, env).value + b;
    RegisteredUrlIsMapped(m, ScanRegistrations(env), reg);
  }

  /** `scanControllers` over a "file" URL of the package: a tagged method of a
      found controller whose class file sits at any depth below the URL's
      directory gets its table URL `"/" + prefix + "/" + route`, provided no
      earlier URL throws. */
  lemma ScanControllersRegistersDirectoryMethod(m: Table, env: Deployment, i: int, dirs: seq<string>, f: string, j: int)
    requires env.controllersParam.Some?
    requires var urls := PackageUrls(env, env.controllersParam.value);
      && 0 <= i < |urls| && urls[i].protocol == "file" && urls[i].file in env.directories
      && (forall k :: 0 <= k < i ==> UrlRegistrations(urls[k], env.controllersParam.value, env).Some?)
      && Located(env.directories[urls[i].file], dirs, f) && EndsWith(f, ClassSuffix)
      && FileClassName(SubPackage(env.controllersParam.value, dirs), f) in env.classes
      && Tags(env.classes[FileClassName(SubPackage(env.controllersParam.value, dirs), f)], j)
    ensures var c := env.classes[FileClassName(SubPackage(env.controllersParam.value, dirs), f)];
      var reg := MethodRegistration(c, j);
      var rs := ScanRegistrations(env);
      && reg.url == TableKey(c.controller.value, c.methods[j].route.value)
      && reg.url in ApplyPuts(m, rs)
      && ((forall r :: r in rs && r.url == reg.url ==> r.handler == reg.handler) ==> ApplyPuts(m, rs)[reg.url] == reg.handler)
  {
    var pkg := env.controllersParam.value;
    var urls := PackageUrls(env, pkg);
    var files := env.directories[urls[i].file];
    var name := FileClassName(SubPackage(pkg, dirs), f);
    var reg := MethodRegistration(env.classes[name], j);
    NestedClassFileIsScanned(files, pkg, dirs, f, env.classes);
    assert reg in LoadedRegistrations(name, env.classes);
    var a, b :| DirectoryRegistrations(files, pkg, env.classes) == a + LoadedRegistrations(name, env.classes) + b;
    assert reg in UrlRegistrations(urls[i], pkg, env).value;
    ScanRegistersUrlPut(m, env, i, reg);
  }

  /** `scanControllers` over a "jar" URL of the package: a tagged method of a
      found controller named by a considered entry of the jar gets its table
      URL `"/" + prefix + "/" + route`, provided no earlier URL throws. */
  lemma ScanControllersRegistersJarMethod(m: Table, env: Deployment, i: int, e: int, j: int)
    requires env.controllersParam.Some?
    requires var pkg := env.controllersParam.value;
      var urls := PackageUrls(env, pkg);
      && 0 <= i < |urls| && urls[i].protocol == "jar"
      && JarPath(urls[i].file).Some? && JarPath(urls[i].file).value in env.jars
      && (forall k :: 0 <= k < i ==> UrlRegistrations(urls[k], pkg, env).Some?)
      && var entries := env.jars[JarPath(urls[i].file).value];
         && 0 <= e < |entries| && JarEntryClassName(pkg, entries[e]).Some?
         && JarEntryClassName(pkg, entries[e]).value in env.classes
         && Tags(env.classes[JarEntryClassName(pkg, entries[e]).value], j)
    ensures var pkg := env.controllersParam.value;
      var entries := env.jars[JarPath(PackageUrls(env, pkg)[i].file).value];
      var c := env.classes[JarEntryClassName(pkg, entries[e]).value];
      var reg := MethodRegistration(c, j);
      var rs := ScanRegistrations(env);
      && reg.url == TableKey(c.controller.value, c.methods[j].route.value)
      && reg.url in ApplyPuts(m, rs)
      && ((forall r :: r in rs && r.url == reg.url ==> r.handler == reg.handler) ==> ApplyPuts(m, rs)[reg.url] == reg.handler)
  {
    var pkg := env.controllersParam.value;
    var urls := PackageUrls(env, pkg);
    var entries := env.jars[JarPath(urls[i].file).value];
    var reg := MethodRegistration(env.classes[JarEntryClassName(pkg, entries[e]).value], j);
    assert reg in JarEntryRegistrations(entries[e], pkg, env.classes);
    assert reg in UrlRegistrations(urls[i], pkg, env).value;
    ScanRegistersUrlPut(m, env, i, reg);
  }
}
