# FrontServlet routing, modelled in Dafny

`FrontServlet` is the single entry servlet of a small Jakarta web framework.
Controllers are classes tagged `@AnnotationController("<prefix>")`. Their
handler methods are tagged `@GetMethode("<route>")`. The servlet does two jobs:

- **Scanning.** It discovers controllers in the package named by the
  "Controllers" init-parameter. It looks in class directories (recursively)
  and in jars, and makes one `urlMappings` `put` per tagged method:
  URL -> (class simple name, method name); a later `put` of the same URL
  replaces the earlier one (`RouteTable.LastRegistrationWins`,
  `Fixtures.SameRouteLaterPutWins`).
- **Routing.** It serves each request in a fixed order:
  1. `/list` reports the table.
  2. An existing static resource goes to the container's default servlet.
  3. Otherwise the first tagged method whose path matches the request is
     invoked, and its result becomes the response.
  4. Anything else gets an HTML "Resource Not Found" page.

The model has five modules:

- `Text`: the Java string operations the servlet relies on:
  `replace(char, char)`, `replace(".class", "")`, `indexOf`, `startsWith`
  and `endsWith`.
- `RouteTable`: the table as a `map`, a scan as the sequence of its `put`s
  (`Registration`s), and the rows of the `/list` report.
- `Scanner`: everything the servlet reads from its container, class loader
  and disk, gathered in one `Deployment` value. This covers the init-parameter,
  the class loader's resource URLs, directory trees, jar entry names, the
  loadable classes with their annotations and declared methods, and the
  static resources. `Scanner` also holds the specification functions of the
  directory, jar and resource-URL scans.
- `Routing`: the per-request decision. It covers trailing-slash
  normalisation, the controller match, the not-found page and `service`'s
  precedence.
- `Servlet`: the class `FrontServlet`, with its mutable `urlMappings` field
  and methods that follow the Java loops. Each method is proved equal to the
  specification function it implements.

`Fixtures` deploys the repository's own `TestController` in a package and a
class directory left open, and states what the scan and the router do with it.

### Behaviour kept as the code has it

- **No separator when matching.** The scan registers
  `"/" + prefix + "/" + route` (FrontServlet.java:98). The request match
  compares against `"/" + prefix + route` (FrontServlet.java:161).
  - A non-empty route's table URL therefore never reaches its own method
    (`Routing.TableKeyIsNotItsMatchPath`).
  - For `TestController`, the table lists `/test/hello`, yet that request
    gets the not-found page. `/testhello` and `/testlist/` are served
    (`Fixtures.FixtureRequests`), and a trailing '/' never changes the
    answer for a path not already ending in '/'
    (`Routing.TrailingSlashFindsSameHandler`).
  - The model keeps this.
- **The match does not use the table.** Matching rescans the top-level
  entries of the first class-loader resource of the package. It ignores
  sub-directories and jars. A class file whose class is not found ends the
  match with "no handler": the `ClassNotFoundException` is caught only by
  the `catch (Exception)` around the whole match (FrontServlet.java:179).
- **Keys are not normalised.** Table keys are stored as built; trailing
  slashes are removed only at match time. Normalisation removes one
  trailing `/`, so a path ending in `//` keeps one.
- **`scanControllers` is never called.** No code path in the servlet calls
  it. The model offers `ScanControllers` as a method, so `/list` reports
  whatever the table holds: the context attribute "urlMappings" or an empty
  map.
- **Listing order.** The table is a `HashMap`, so the order of `/list` rows
  is unspecified. `ListUrls` is proved to list every entry exactly once, in
  some order.
- **Jar entries and class files are named differently.** For a class file,
  the directory scan removes ".class" from the file name only
  (FrontServlet.java:90). For a jar entry, the jar scan removes every
  ".class" from the whole dotted entry name (FrontServlet.java:59). A class
  below a directory named `classes` shows the difference. The directory scan
  names `pkg.classes.Foo`. The jar scan names `pkg` + "es.Foo", another class,
  which usually does not load (`Scanner.JarAndDirectoryDisagreeOnClassesSegment`).
  This holds for a dotted package such as `com.aki.controllers` as well:
  the lemma needs only a package without '/' in which no ".class" starts,
  and a file name `Foo` without '.' or '/' that does not start with "class".
  The model keeps both namings.
- **A scan stops at the first failure.** In `scanControllers`, an exception
  on one resource URL ends the loop over all remaining URLs. A jar URL
  throws when its path has no `!` at all (`substring(5, -1)`), when its
  first `!` stands before position 5, or when the jar cannot be opened.
  What was already put stays.

## Model

| member | source | states |
|---|---|---|
| Text.ReplaceChar | src/com/aki/p17/FrontServlet.java:43 | `String.replace(char, char)`: same length, each position replaced exactly when it held the old character |
| Text.StartsWith | src/com/aki/p17/FrontServlet.java:58 | `s.startsWith(t)`: `t` fits in `s` and equals its first characters; `Text.StartsWithPointwise` states it position by position |
| Text.StartsWithPointwise | src/com/aki/p17/FrontServlet.java:58 | `s` starts with `t` if and only if `t` is no longer than `s` and agrees with `s` at each of its positions |
| Text.EndsWith | src/com/aki/p17/FrontServlet.java:89 | `s.endsWith(t)`: `t` fits in `s` and equals its last characters; `Text.EndsWithPointwise` states it position by position |
| Text.EndsWithPointwise | src/com/aki/p17/FrontServlet.java:164-165 | `s` ends with `t` if and only if `t` is no longer than `s` and agrees with the same number of last positions of `s` |
| Text.RemoveClassSuffixes | src/com/aki/p17/FrontServlet.java:90 | `replace(".class", "")`: never longer than its input |
| Text.RemoveFirstClassSuffix | src/com/aki/p17/FrontServlet.java:59 | when ".class" starts right after `a` and at no earlier position, the removal keeps `a`, drops that occurrence and goes on with what follows |
| Text.KeepPrefixWithoutClassSuffix | src/com/aki/p17/FrontServlet.java:59 | a prefix in which no ".class" starts is kept unchanged, and the removal goes on with the rest |
| Text.RemoveTrailingClassSuffix | src/com/aki/p17/FrontServlet.java:89-90 | for `b + ".class"` with no ".class" starting inside `b`, the removal gives back exactly `b` |
| Text.UnchangedWithoutClassSuffix | src/com/aki/p17/FrontServlet.java:90 | a string in which no ".class" starts is left unchanged |
| Text.RemovalShortens | src/com/aki/p17/FrontServlet.java:90 | a string containing ".class" loses at least six characters |
| Text.RemovalAddsNoChar | src/com/aki/p17/FrontServlet.java:59 | a character absent from the input is absent from the result |
| Text.IndexOf | src/com/aki/p17/FrontServlet.java:53 | `indexOf`: -1 exactly when the character is absent, otherwise the position of its first occurrence |
| RouteTable.ApplyPuts | src/com/aki/p17/FrontServlet.java:99 | a sequence of `put`s: the keys afterwards are the old keys plus the URLs put; other keys keep their values |
| RouteTable.ApplyPutsAppend | src/com/aki/p17/FrontServlet.java:99 | performing two scans one after the other equals performing their concatenated `put`s |
| RouteTable.LastRegistrationWins | src/com/aki/p17/FrontServlet.java:99 | a URL put at position i and never again afterwards maps to that registration's handler |
| RouteTable.RegisteredUrlIsMapped | src/com/aki/p17/FrontServlet.java:68-99 | a URL the scan puts is in the table afterwards; when all its `put`s carry the same handler, it maps to that handler |
| RouteTable.PutReplacesOnlyItsKey | src/com/aki/p17/FrontServlet.java:68 | one more `put` sets its own URL and leaves every other key's presence and value unchanged |
| RouteTable.RescanIsIdempotent | src/com/aki/p17/FrontServlet.java:37-83 | scanning a second time after a scan leaves the same table |
| RouteTable.RowOf | src/com/aki/p17/FrontServlet.java:212-216 | the report row of the entry `url -> (class, method)`: the URL, "Yes", the class name and the method name |
| Scanner.PackagePath | src/com/aki/p17/FrontServlet.java:43 | the package's resource name: same length, every '.' made '/', every other character kept |
| Scanner.PackageUrls | src/com/aki/p17/FrontServlet.java:43 | `getResources` of the package's resource name: the URLs the class loader knows for `PackagePath(pkg)`, none when it knows none; `handleAnnotatedControllers` (line 143) takes the first |
| Scanner.TableKey | src/com/aki/p17/FrontServlet.java:94-98 | the key is '/', the controller prefix, '/', then the route, at fixed positions |
| Scanner.TableKeysOfOneController | src/com/aki/p17/FrontServlet.java:95-99 | two methods of one controller get the same key if and only if their routes are equal |
| Scanner.MethodRegistrations | src/com/aki/p17/FrontServlet.java:95-101 | a registration exists exactly for each tagged method, keyed `"/" + prefix + "/" + route` with (simple name, method name); never more registrations than declared methods (exactly one per tagged method, in the order `getDeclaredMethods()` returns them, which is the deployment's order: `Scanner.MethodRegistrationsInOrder`) |
| Scanner.MethodRegistrationsInOrder | src/com/aki/p17/FrontServlet.java:95-99 | as many `put`s as tagged methods, and the tagged method at position j makes the `put` after those of the tagged methods that come before it in the order `getDeclaredMethods()` returns them (the deployment's order), so that order decides which of two same-route methods wins |
| Scanner.ClassRegistrations | src/com/aki/p17/FrontServlet.java:93-101 | a class registers exactly the `put`s of its tagged methods, and nothing when it has no controller tag |
| Scanner.LoadedRegistrations | src/com/aki/p17/FrontServlet.java:91-105 | a class name registers exactly the tagged methods of its class when it is found, and nothing otherwise |
| Scanner.FileClassName | src/com/aki/p17/FrontServlet.java:90 | the class name is the package, a '.', then at most the file name's characters |
| Scanner.ClassFileNamesItsClass | src/com/aki/p17/FrontServlet.java:89-90 | file `f.class` (no '.' in `f`) in package `pkg` names class `pkg.f` |
| Scanner.DirectoryRegistrations | src/com/aki/p17/FrontServlet.java:85-108 | every `put` of a directory scan registers a tagged method of a class that loads |
| Scanner.EntryRegistrations | src/com/aki/p17/FrontServlet.java:86-106 | a file not ending in ".class" registers nothing; every `put` registers a tagged method of a class that loads |
| Scanner.EntryIsInfix | src/com/aki/p17/FrontServlet.java:86-107 | each listing entry's registrations occur, as one block, in the directory's registrations |
| Scanner.NestedClassFileIsScanned | src/com/aki/p17/FrontServlet.java:85-108 | a class file at any depth below the scanned directory contributes its class's registrations under the package built from the directory names on the way |
| Scanner.DirectoryScanRegistersTaggedMethod | src/com/aki/p17/FrontServlet.java:85-108 | a tagged method of a found controller whose class file sits at any depth gets its table URL, mapped to that method when no other `put` of the scan for that URL differs |
| Scanner.DirectoryRegistrationSource | src/com/aki/p17/FrontServlet.java:85-108 | every `put` of a directory scan comes from a class file somewhere below it, named under the package of its directory path |
| Scanner.EntryRegistrationSource | src/com/aki/p17/FrontServlet.java:86-106 | every `put` of one listing entry comes from a class file at or below that entry |
| Scanner.JarEntryClassName | src/com/aki/p17/FrontServlet.java:58-59 | an entry is considered exactly when it starts with the package path and ends in ".class"; the class name is no longer than the entry and has no '/' |
| Scanner.JarEntryNamesItsClass | src/com/aki/p17/FrontServlet.java:58-59 | entry `b + ".class"` under the package path names the class `b` with '/' made '.', provided no ".class" starts inside that dotted `b` |
| Scanner.JarAndDirectoryDisagreeOnClassesSegment | src/com/aki/p17/FrontServlet.java:59-90 | for a package without '/' in which no ".class" starts (dotted or not, such as `com.aki.controllers`) and a file name `F` without '.' or '/' not starting with "class": for a class file below a directory named `classes`, the directory scan names `pkg.classes.F` but the jar scan names `pkg` + "es." + `F` |
| Scanner.JarEntryRegistrations | src/com/aki/p17/FrontServlet.java:57-75 | an entry registers exactly the tagged methods of the class it names, when the entry is considered and that class is found |
| Scanner.JarRegistrations | src/com/aki/p17/FrontServlet.java:55-76 | a jar scan makes a registration if and only if some entry makes it; each registers a tagged method of a class that loads |
| Scanner.JarEntryIsInfix | src/com/aki/p17/FrontServlet.java:55-76 | each entry's registrations occur, as one block, in the jar's registrations |
| Scanner.JarScanRegistersTaggedMethod | src/com/aki/p17/FrontServlet.java:55-76 | a tagged method of a found controller named by a considered entry gets its table URL, mapped to that method when no other `put` of the jar for that URL differs |
| Scanner.JarPath | src/com/aki/p17/FrontServlet.java:53 | `substring(5, indexOf("!"))` throws exactly when there is no '!' or the first is before position 5; otherwise the text between position 5 and the first '!' |
| Scanner.UrlRegistrations | src/com/aki/p17/FrontServlet.java:46-78 | handling a URL throws exactly for a jar URL whose path cannot be cut out or whose jar cannot be opened; a "file" URL naming a directory puts exactly that directory's scan, a jar URL whose jar opens puts exactly that jar's scan, any other URL puts nothing; every `put` registers a tagged method of a class that loads |
| Scanner.UrlBeforeFailureIsScanned | src/com/aki/p17/FrontServlet.java:45-82 | when no URL up to position i throws, the `put`s of URL i occur, as one block, in the scan |
| Scanner.ResourceStep | src/com/aki/p17/FrontServlet.java:45-82 | one turn of the URL loop: a URL that throws leaves the table as it is and ends the loop; otherwise its `put`s are applied before those of the remaining URLs |
| Scanner.ScanRegistersUrlPut | src/com/aki/p17/FrontServlet.java:37-83 | a `put` of a URL reached before any failure is made by `scanControllers`: its URL is in the table, mapped to its handler when no other `put` for that URL differs |
| Scanner.ScanControllersRegistersDirectoryMethod | src/com/aki/p17/FrontServlet.java:37-108 | for a "file" URL of the package reached before any failure, a tagged method of a found controller whose class file sits at any depth below it gets the table URL `"/" + prefix + "/" + route`, mapped to (simple name, method name) when no other `put` for that URL differs |
| Scanner.ScanControllersRegistersJarMethod | src/com/aki/p17/FrontServlet.java:37-83 | for a jar URL of the package reached before any failure, a tagged method of a found controller named by a considered entry gets the table URL `"/" + prefix + "/" + route`, mapped to (simple name, method name) when no other `put` for that URL differs |
| Scanner.ResourceRegistrations | src/com/aki/p17/FrontServlet.java:45-79 | every `put` of the loop over the URLs registers a tagged method of a class that loads |
| Scanner.ScanRegistrations | src/com/aki/p17/FrontServlet.java:37-83 | no `put` without the "Controllers" parameter; every `put` registers a tagged method of a class that loads |
| Scanner.FailingUrlEndsScan | src/com/aki/p17/FrontServlet.java:45-82 | a resource URL that throws ends the scan: the result equals the scan of the URLs before it |
| Routing.Normalize | src/com/aki/p17/FrontServlet.java:164-165 | removes exactly one trailing '/', and changes nothing else |
| Routing.MatchPath | src/com/aki/p17/FrontServlet.java:156-161 | `"/" + controller + route`: a '/', then the controller prefix, then the route with no separator, at fixed positions; `Routing.MatchPathLacksSeparator` relates it to the table key |
| Routing.Matches | src/com/aki/p17/FrontServlet.java:163-167 | a tagged method matches the normalised request path `np` if and only if `np` is its match path, or its match path less the trailing '/' when it has one |
| Routing.NormalizeIdempotentUnlessDoubleSlash | src/com/aki/p17/FrontServlet.java:164-165 | normalising twice equals normalising once if and only if the path does not end in "//" |
| Routing.TrailingSlashIgnored | src/com/aki/p17/FrontServlet.java:163-167 | a path without a trailing '/' and the same path with one appended normalise to the same path |
| Routing.MatchPathLacksSeparator | src/com/aki/p17/FrontServlet.java:161 | the table key (line 98) is the match path with a '/' put back between controller and route |
| Routing.TableKeyIsNotItsMatchPath | src/com/aki/p17/FrontServlet.java:161-167 | for a non-empty route, the normalised table URL (line 98) is one character longer than the normalised match path, so it never matches that method |
| Routing.MethodsMatch | src/com/aki/p17/FrontServlet.java:158-175 | no answer if and only if no tagged method matches; otherwise the result of the first matching method |
| Routing.EntryMatch | src/com/aki/p17/FrontServlet.java:149-177 | a directory entry passes; an entry ends the match exactly when it is a class file whose class is not found |
| Routing.EntryMatchMeaning | src/com/aki/p17/FrontServlet.java:149-177 | one listing entry ends the match exactly when it is a class file whose class is not found; it answers with the first matching method of a found controller, and otherwise no method of it matches |
| Routing.FilesMatch | src/com/aki/p17/FrontServlet.java:149-178 | an answer is that of an entry preceded only by passing entries; with no answer, every entry that would answer comes after one that ends the match |
| Routing.MatchIsFirstTaggedMethod | src/com/aki/p17/FrontServlet.java:149-178 | a match answers with the result of the first matching method of the first entry that has one |
| Routing.MatchCompleteWhenClassesLoad | src/com/aki/p17/FrontServlet.java:149-178 | when every class file's class is found, the match answers if and only if some tagged method of some listed controller matches |
| Routing.ControllerMatch | src/com/aki/p17/FrontServlet.java:137-184 | no answer without the "Controllers" parameter; an answer needs a package URL naming a directory, and is the first matching tagged method of its top-level entries |
| Routing.ControllerMatchIsFilesMatch | src/com/aki/p17/FrontServlet.java:140-178 | with the parameter set and the package's first resource an existing directory, the match is the match over that directory's top-level entries |
| Routing.ControllerMatchNeedsPackageDirectory | src/com/aki/p17/FrontServlet.java:140-147 | no handler when the package has no resource URL or its first one is not an existing directory |
| Routing.ControllerMatchCompleteWhenClassesLoad | src/com/aki/p17/FrontServlet.java:137-184 | when every class file in the package directory loads, the match answers if and only if some tagged method of a controller class directly in that directory matches the normalised request path |
| Routing.TrailingSlashFindsSameHandler | src/com/aki/p17/FrontServlet.java:163-167 | a request path not ending in '/' and the same path with one '/' appended find the same handler |
| Routing.NotFoundPage | src/com/aki/p17/FrontServlet.java:186-202 | the page contains the request URI and the title "Resource Not Found" |
| Routing.Dispatch | src/com/aki/p17/FrontServlet.java:111-130 | in precedence order, if and only if: "/list" gives the listing, then an existing static resource passes through, then a controller match gives its result; otherwise the not-found page naming the URI |
| Routing.RequestPath | src/com/aki/p17/FrontServlet.java:112 | the request URI without the context path: the URI is its first characters, as many as the context path has, followed by the path |
| Servlet.FrontServlet.constructor | src/com/aki/p17/FrontServlet.java:29-35 | the table is the context attribute "urlMappings" when present, otherwise empty |
| Servlet.FrontServlet.RegisterController | src/com/aki/p17/FrontServlet.java:93-101 | the table afterwards is the old table with the controller's registrations put in method order; no change for an untagged class |
| Servlet.FrontServlet.LoadAndRegister | src/com/aki/p17/FrontServlet.java:91-105 | a class that is not found leaves the table unchanged; one that is found is registered |
| Servlet.FrontServlet.ScanDirectory | src/com/aki/p17/FrontServlet.java:85-108 | the table afterwards is the old table with the directory's registrations put, depth first, in listing order |
| Servlet.FrontServlet.ScanEntry | src/com/aki/p17/FrontServlet.java:87-106 | the table afterwards is the old table with the entry's registrations put: a subdirectory's as a subpackage, a class file's when its class is found |
| Servlet.FrontServlet.ScanJar | src/com/aki/p17/FrontServlet.java:55-76 | the table afterwards is the old table with the registrations of the considered entries put, in entry order |
| Servlet.FrontServlet.ScanJarEntry | src/com/aki/p17/FrontServlet.java:57-75 | the table afterwards is the old table with the entry's registrations put: those of the class it names, when the entry is considered and the class is found |
| Servlet.FrontServlet.ScanResource | src/com/aki/p17/FrontServlet.java:46-78 | completes exactly when the URL does not throw, and then puts that URL's registrations; otherwise puts nothing |
| Servlet.FrontServlet.ScanControllers | src/com/aki/p17/FrontServlet.java:37-83 | the table afterwards is the old table with the scan's registrations put, up to the first URL that throws |
| Servlet.FrontServlet.HandleAnnotatedControllers | src/com/aki/p17/FrontServlet.java:137-184 | the answer is exactly the controller match (`Routing.ControllerMatch`) of the request path |
| Servlet.FrontServlet.MatchMethods | src/com/aki/p17/FrontServlet.java:158-175 | the loop over a controller's methods answers exactly as `Routing.MethodsMatch` of the normalised request path |
| Servlet.FrontServlet.ListUrls | src/com/aki/p17/FrontServlet.java:204-221 | one row per table entry (URL, "Yes", class, method) and no other rows |
| Servlet.FrontServlet.Service | src/com/aki/p17/FrontServlet.java:111-130 | the outcome is `Dispatch` of the path after the context path; the listing rows exactly when the outcome is the listing |
| Fixtures.FixtureScan | src/com/aki/controllers/TestController.java:6-18 | scanning TestController's package directory puts `/test/hello` then `/test/list` |
| Fixtures.FixtureTable | src/com/aki/controllers/TestController.java:6-18 | from an empty table the scan leaves exactly `/test/hello` -> (TestController, hello) and `/test/list` -> (TestController, list) |
| Fixtures.SameRouteLaterPutWins | src/com/aki/p17/FrontServlet.java:95-99 | a controller with two tagged methods on the same route leaves one table entry, for the method whose `put` comes later |
| Fixtures.FixtureRequests | src/com/aki/p17/FrontServlet.java:161-172 | for TestController, `/test/hello` gets the not-found page, `/testhello` gets hello's result and `/testlist/` gets list's result |
| Fixtures.ServeTestController | src/com/aki/p17/FrontServlet.java:111-130 | a servlet built without a context table, after scanning, holds the two TestController URLs and serves `/testhello` but not `/test/hello` |

## Left out

- Reflection is replaced by data: a class's annotations and declared methods are fields of `ClassInfo`, and a method's return value is a string field. `getDeclaredConstructor().newInstance()` and `method.invoke` are assumed not to throw, so the `catch (Exception)` paths they would take are not modelled.
- The order of `listFiles()`, `getDeclaredMethods()` and jar entries is unspecified in Java. The model takes them in the order the `Deployment` gives.
- `URLDecoder.decode` is taken as the identity on file and jar paths. The model does not decode percent-encoding.
- `File.listFiles()` returning null (an I/O error) is not modelled. A directory in the deployment always has a listing.
- `getResource(path) != null` for static resources becomes membership in a set of resource paths. The `MalformedURLException` it may throw is not modelled.
- `getResource` of the controller package is the first URL `getResources` returns.
- HandleAnnotatedControllers: the answer is the method's result. The content type, `println`'s trailing newline and the `Object`-to-`String` conversion are not modelled.
- ListUrls: the rows are the report's data. The HTML page around them is not modelled.
- NotFoundPage: the contract states only that the page names the URI and the title. The exact text is fixed by its definition, including the indentation left after the text block is stripped. `println`'s trailing newline is not included.
- Service: requires the context path to be no longer than the request URI. The servlet container guarantees this, since the URI starts with the context path.
- `defaultServe` is a forward to the container's default servlet, and `doGet` only calls `service`. They appear only as the `StaticPassthrough` outcome.
- `Class.forName` is modelled as finding the class or throwing `ClassNotFoundException`. An `Error` it may throw instead (`NoClassDefFoundError`, `ExceptionInInitializerError`) is not caught by `catch (Exception)` (FrontServlet.java:80, 179) and escapes the servlet. The model does not represent that path: a class that is not found contributes nothing to a scan and ends a match.
- Text.RemoveClassSuffixes: its own contract states only the length bound. What the removal does to each kind of input is stated by the lemmas beside it (`RemoveFirstClassSuffix`, `UnchangedWithoutClassSuffix`, `RemovalShortens`, `RemovalAddsNoChar`). As quantified postconditions on the function itself they made every proof about it too expensive.
- `e.printStackTrace()` output and concurrency between requests are not modelled.

