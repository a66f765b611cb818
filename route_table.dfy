/** The `urlMappings` table: URL -> (class simple name, method name), filled
    by a sequence of `put` calls in scan order. */
module RouteTable {

  /** The `String[]{className, methodName}` value stored for a URL. */
  datatype Handler = Handler(className: string, methodName: string)

  /** One `urlMappings.put(url, handler)` call made by a scan. */
  datatype Registration = Registration(url: string, handler: Handler)

  type Table = map<string, Handler>

  /** The URLs a sequence of registrations writes. */
  ghost function Urls(rs: seq<Registration>): set<string> {
    set i | 0 <= i < |rs| :: rs[i].url
  }

  /** The table after performing the `put`s of `rs` on `m`, first to last. */
  function ApplyPuts(m: Table, rs: seq<Registration>): (r: Table)
    ensures r.Keys == m.Keys + Urls(rs)
    ensures forall k :: k in m && k !in Urls(rs) ==> r[k] == m[k]
    decreases rs
  {
    if rs == [] then m
    else
      assert Urls(rs) == {rs[0].url} + Urls(rs[1..]) by {
        assert forall i :: 0 < i < |rs| ==> rs[i] == rs[1..][i - 1];
      }
      ApplyPuts(m[rs[0].url := rs[0].handler], rs[1..])
  }

  lemma {:induction false} ApplyPutsAppend(m: Table, a: seq<Registration>, b: seq<Registration>)
    ensures ApplyPuts(m, a + b) == ApplyPuts(ApplyPuts(m, a), b)
    decreases a
  {
    if a != [] {
      assert (a + b)[0] == a[0] && (a + b)[1..] == a[1..] + b;
      ApplyPutsAppend(m[a[0].url := a[0].handler], a[1..], b);
    } else {
      assert a + b == b;
    }
  }

  /** A URL registered at position `i` and never again afterwards maps to
      the handler of that registration: the last `put` for a URL wins. */
  lemma {:induction false} LastRegistrationWins(m: Table, rs: seq<Registration>, i: nat)
    requires i < |rs|
    requires forall j :: i < j < |rs| ==> rs[j].url != rs[i].url
    ensures rs[i].url in ApplyPuts(m, rs)
    ensures ApplyPuts(m, rs)[rs[i].url] == rs[i].handler
    decreases rs
  {
    var m' := m[rs[0].url := rs[0].handler];
    if i == 0 {
      var k := rs[0].url;
      assert k !in Urls(rs[1..]) by {
        forall j | 0 <= j < |rs[1..]| ensures rs[1..][j].url != k {
          assert rs[1..][j] == rs[j + 1];
        }
      }
    } else {
      forall j | i - 1 < j < |rs[1..]| ensures rs[1..][j].url != rs[1..][i - 1].url {
        assert rs[1..][j] == rs[j + 1];
      }
      LastRegistrationWins(m', rs[1..], i - 1);
    }
  }

  /** A URL the scan registers is in the table afterwards; when every
      registration of that URL carries the same handler, that handler is its
      value, whatever the order of the `put`s. */
  lemma {:induction false} RegisteredUrlIsMapped(m: Table, rs: seq<Registration>, reg: Registration)
    requires reg in rs
    ensures reg.url in ApplyPuts(m, rs)
    ensures (forall r :: r in rs && r.url == reg.url ==> r.handler == reg.handler) ==>
      ApplyPuts(m, rs)[reg.url] == reg.handler
    decreases rs
  {
    var m' := m[rs[0].url := rs[0].handler];
    if reg in rs[1..] {
      RegisteredUrlIsMapped(m', rs[1..], reg);
    } else {
      assert rs[0] == reg;
      if forall r :: r in rs && r.url == reg.url ==> r.handler == reg.handler {
        assert reg.url !in Urls(rs[1..]) by {
          forall i | 0 <= i < |rs[1..]| ensures rs[1..][i].url != reg.url {
            assert rs[1..][i] in rs;
          }
        }
      }
    }
  }

  /** One more `put` after a scan replaces the value of its own URL and of
      no other URL. */
  lemma PutReplacesOnlyItsKey(m: Table, rs: seq<Registration>, r: Registration)
    ensures ApplyPuts(m, rs + [r]) == ApplyPuts(m, rs)[r.url := r.handler]
    ensures r.url in ApplyPuts(m, rs + [r]) && ApplyPuts(m, rs + [r])[r.url] == r.handler
    ensures forall k :: k != r.url ==>
      (k in ApplyPuts(m, rs + [r]) <==> k in ApplyPuts(m, rs)) &&
      (k in ApplyPuts(m, rs) ==> ApplyPuts(m, rs + [r])[k] == ApplyPuts(m, rs)[k])
  {
    ApplyPutsAppend(m, rs, [r]);
  }

  /** The result of a scan depends on the starting table only at the URLs the
      scan does not write. */
  lemma {:induction false} ApplyPutsAgree(m1: Table, m2: Table, rs: seq<Registration>)
    requires forall k :: k !in Urls(rs) ==> (k in m1 <==> k in m2)
    requires forall k :: k !in Urls(rs) && k in m1 && k in m2 ==> m1[k] == m2[k]
    ensures ApplyPuts(m1, rs) == ApplyPuts(m2, rs)
    decreases rs
  {
    if rs != [] {
      assert Urls(rs) == {rs[0].url} + Urls(rs[1..]) by {
        assert forall i :: 0 < i < |rs| ==> rs[i] == rs[1..][i - 1];
      }
      ApplyPutsAgree(m1[rs[0].url := rs[0].handler], m2[rs[0].url := rs[0].handler], rs[1..]);
    }
  }

  /** Performing the same scan twice leaves the same table as performing it once. */
  lemma RescanIsIdempotent(m: Table, rs: seq<Registration>)
    ensures ApplyPuts(ApplyPuts(m, rs), rs) == ApplyPuts(m, rs)
  {
    ApplyPutsAgree(ApplyPuts(m, rs), m, rs);
  }

  /** A line of the `/list` report: URL, the constant "Yes", class, method. */
  datatype Row = Row(url: string, supported: string, className: string, methodName: string)

  /** The report row of the entry `url -> h`: URL, "Yes", class, method. */
  function RowOf(url: string, h: Handler): (row: Row)
    ensures row.url == url && row.supported == "Yes"
    ensures row.className == h.className && row.methodName == h.methodName
  {
    Row(url, "Yes", h.className, h.methodName)
  }

  /** `rows` lists `t`: one row per entry, nothing else, in any order. */
  ghost predicate IsListing(rows: seq<Row>, t: Table) {
    && |rows| == |t|
    && (forall url :: url in t ==> RowOf(url, t[url]) in rows)
    && (forall i :: 0 <= i < |rows| ==> rows[i].url in t && rows[i] == RowOf(rows[i].url, t[rows[i].url]))
  }

  /** `rows` lists the entries of `t` whose URLs are in `listed`, one row each. */
  ghost predicate ListsEntries(rows: seq<Row>, listed: set<string>, t: Table) {
    && listed <= t.Keys
    && |rows| == |listed|
    && (forall url :: url in listed ==> RowOf(url, t[url]) in rows)
    && (forall i :: 0 <= i < |rows| ==> rows[i].url in listed && rows[i] == RowOf(rows[i].url, t[rows[i].url]))
  }

  /** `rows` lists every entry of `t` except those whose URLs are `pending`. */
  ghost predicate ListsAllBut(rows: seq<Row>, pending: set<string>, t: Table) {
    pending <= t.Keys && ListsEntries(rows, t.Keys - pending, t)
  }

  /** Listing one pending URL leaves one fewer pending. */
  lemma ListStep(rows: seq<Row>, pending: set<string>, t: Table, url: string)
    requires ListsAllBut(rows, pending, t) && url in pending
    ensures ListsAllBut(rows + [RowOf(url, t[url])], pending - {url}, t)
  {
    ListOneMore(rows, t.Keys - pending, t, url);
    assert t.Keys - pending + {url} == t.Keys - (pending - {url});
  }

  /** With nothing pending, the rows are the report of the whole table. */
  lemma ListStepsDone(rows: seq<Row>, t: Table)
    requires ListsAllBut(rows, {}, t)
    ensures IsListing(rows, t)
  {
    assert t.Keys - {} == t.Keys;
    ListedAll(rows, t);
  }

  /** One more row for a URL not yet listed keeps the rows a listing. */
  lemma ListOneMore(rows: seq<Row>, listed: set<string>, t: Table, url: string)
    requires ListsEntries(rows, listed, t) && url in t && url !in listed
    ensures ListsEntries(rows + [RowOf(url, t[url])], listed + {url}, t)
  {
    var more := rows + [RowOf(url, t[url])];
    assert forall i :: 0 <= i < |rows| ==> more[i] == rows[i];
  }

  /** Once every URL is listed, the rows are the report of the whole table. */
  lemma ListedAll(rows: seq<Row>, t: Table)
    requires ListsEntries(rows, t.Keys, t)
    ensures IsListing(rows, t)
  {
  }
}
