/** composer-installed.go: the resolver for Composer's `installed.json`. It collects the
    package names the file mentions and asks packagist.org which of them it knows. */
module ComposerInstalled {
  import opened Common
  import opened GoStrings

  // ---------------------------------------------------------------------------------
  // The decoded file.

  /** One element of the installed-packages list: its own name and the keys of its
      `require` and `require-dev` objects (the version constraints are never read). */
  datatype PackageRecord = PackageRecord(name: string, require: map<string, string>, requireDev: map<string, string>)

  /** The second shape: an object with a `packages` list and a `dev-package-names` list. */
  datatype InstalledFile = InstalledFile(packages: seq<PackageRecord>, devPackageNames: seq<string>)

  /** The error `encoding/json` reports when the bytes do not decode into the second shape. */
  datatype JsonError = JsonError(message: string)

  // ---------------------------------------------------------------------------------
  // The names a file contributes. Go visits the keys of a map in an unspecified order; the
  // order one visit took is recorded as a `KeyOrder`, and the names appended are a function
  // of the records and those orders.

  /** `order` lists every key of `keys` exactly once: it is one order in which a Go `range`
      over a map with these keys can visit them. */
  predicate Enumerates(order: seq<string>, keys: set<string>)
  {
    multiset(order) == multiset(keys)
  }

  /** The orders in which the `require` and the `require-dev` keys of one record were visited. */
  datatype KeyOrder = KeyOrder(require: seq<string>, requireDev: seq<string>)

  predicate ValidOrder(r: PackageRecord, o: KeyOrder)
  {
    Enumerates(o.require, r.require.Keys) && Enumerates(o.requireDev, r.requireDev.Keys)
  }

  predicate ValidOrders(recs: seq<PackageRecord>, orders: seq<KeyOrder>)
  {
    |orders| == |recs| && forall i :: 0 <= i < |recs| ==> ValidOrder(recs[i], orders[i])
  }

  /** What the loop body appends for one record: its name, its `require` keys, its
      `require-dev` keys. */
  function RecordListing(r: PackageRecord, o: KeyOrder): seq<string>
  {
    [r.name] + o.require + o.requireDev
  }

  /** What the record loop appends: the records' listings one after the other. */
  function Listing(recs: seq<PackageRecord>, orders: seq<KeyOrder>): seq<string>
    requires |orders| == |recs|
  {
    if recs == [] then []
    else Listing(recs[..|recs| - 1], orders[..|recs| - 1]) + RecordListing(recs[|recs| - 1], orders[|recs| - 1])
  }

  /** How many names one record contributes. */
  function RecordSize(r: PackageRecord): nat
  {
    1 + |r.require.Keys| + |r.requireDev.Keys|
  }

  /** How many names a list of records contributes. */
  function FlatSize(recs: seq<PackageRecord>): nat
  {
    if recs == [] then 0 else FlatSize(recs[..|recs| - 1]) + RecordSize(recs[|recs| - 1])
  }

  /** The names one record contributes, with multiplicity. */
  function RecordMultiset(r: PackageRecord): multiset<string>
  {
    multiset{r.name} + multiset(r.require.Keys) + multiset(r.requireDev.Keys)
  }

  /** The names a list of records contributes, with multiplicity. */
  function FlatMultiset(recs: seq<PackageRecord>): multiset<string>
  {
    if recs == [] then multiset{} else FlatMultiset(recs[..|recs| - 1]) + RecordMultiset(recs[|recs| - 1])
  }

  // Talking to packagist.org.

  /** The answer to one GET request: no response at all, or a response with a status. */
  datatype Response = TransportError | Status(code: int)

  /** The registry as seen from the scanner: the answer to the `n`-th request the scan
      sends, asking for the given URL. */
  type Server = (nat, string) -> Response

  const StatusOK: int := 200
  const TooManyRequests: int := 429
  /** `isAvailableInPublic` gives up once its retry counter exceeds this. */
  const MaxRetries: int := 3

  /** The page packagist.org serves for a package. */
  function DetailUrl(pkgname: string): (url: string)
    ensures |url| == 31 + |pkgname| && url[31..] == pkgname
  {
    "https://packagist.org/packages/" + pkgname
  }

  /** Composer platform packages (`ext-json`, …) are never looked up. */
  predicate IsPlatformPackage(pkgname: string)
  {
    HasPrefix(pkgname, "ext-")
  }

  /** The verdict of one probe and the number of requests it sent. */
  datatype ProbeResult = ProbeResult(available: bool, requests: nat)

  /** The verdict of one scan and the number of requests it sent. */
  datatype ScanResult = ScanResult(notavail: seq<string>, requests: nat)

  /** The requests a probe starting at retry counter `retry` may send at most. */
  function RequestBudget(retry: int): nat
  {
    if retry > MaxRetries then 0 else MaxRetries + 1 - retry
  }

  /** Whether every answer from request `sent` on, for `url`, is 429. */
  ghost predicate ThrottledFrom(server: Server, sent: nat, url: string)
  {
    forall n: nat :: sent <= n ==> server(n, url) == Status(TooManyRequests)
  }

  /** The answers to requests do not depend on when they are sent. */
  ghost predicate Stateless(server: Server)
  {
    forall n: nat, url: string :: server(n, url) == server(0, url)
  }

  class ComposerInstalledLookup {
    /** The names collected so far, in the order they were appended. */
    var Packages: seq<string>
    /** Only controls diagnostic output. */
    var Verbose: bool

    /** `NewComposerInstalledLookup(verbose)`: starts with no names. */
    constructor (verbose: bool)
      ensures Packages == [] && Verbose == verbose
    {
      Packages := [];
      Verbose := verbose;
    }

    /** A `range` loop over a map that appends each key: every key once, in the order
        `order` the visit took. */
    method AppendKeys(keys: set<string>) returns (ghost order: seq<string>)
      modifies this
      ensures Enumerates(order, keys)
      ensures Packages == old(Packages) + order && Verbose == old(Verbose)
    {
      order := [];
      var remaining := keys;
      while remaining != {}
        invariant remaining <= keys
        invariant Enumerates(order, keys - remaining)
        invariant Packages == old(Packages) + order && Verbose == old(Verbose)
        decreases |remaining|
      {
        var k :| k in remaining;
        ghost var done := keys - remaining;
        assert multiset(done + {k}) == multiset(done) + multiset{k} by {
          assert k !in done;
        }
        Packages := Packages + [k];
        order := order + [k];
        remaining := remaining - {k};
        assert keys - remaining == done + {k};
      }
      assert keys - remaining == keys;
    }

    /** The body of the record loop. */
    method AppendRecord(r: PackageRecord) returns (ghost o: KeyOrder)
      modifies this
      ensures ValidOrder(r, o)
      ensures Packages == old(Packages) + RecordListing(r, o) && Verbose == old(Verbose)
    {
      Packages := Packages + [r.name];
      ghost var require := AppendKeys(r.require.Keys);
      ghost var requireDev := AppendKeys(r.requireDev.Keys);
      o := KeyOrder(require, requireDev);
    }

    /** The loop over `dev-package-names`: the names are appended as they are. */
    method AppendNames(names: seq<string>)
      modifies this
      ensures Packages == old(Packages) + names && Verbose == old(Verbose)
    {
      for i := 0 to |names|
        invariant Packages == old(Packages) + names[..i] && Verbose == old(Verbose)
      {
        assert names[..i + 1] == names[..i] + [names[i]];
        Packages := Packages + [names[i]];
      }
      assert names[..|names|] == names;
    }

    /** The loop over the records: each record's listing, in the order of the list. */
    method AppendRecords(d: seq<PackageRecord>) returns (ghost orders: seq<KeyOrder>)
      modifies this
      ensures ValidOrders(d, orders)
      ensures Packages == old(Packages) + Listing(d, orders) && Verbose == old(Verbose)
    {
      orders := [];
      for i := 0 to |d|
        invariant ValidOrders(d[..i], orders)
        invariant Packages == old(Packages) + Listing(d[..i], orders) && Verbose == old(Verbose)
      {
        ghost var before := Packages;
        ghost var o := AppendRecord(d[i]);
        RecordLoopStep(old(Packages), before, Packages, d, i, orders, o);
        orders := orders + [o];
      }
      assert d[..|d|] == d;
    }

    /** `ReadPackagesFromFile(rawfile)`. The two attempts of `json.Unmarshal` are given
        as what they decode to: `vendorFile` is the list of the first shape, or `None` when
        that decoding fails; `composerFile` is the object of the second shape, or the
        decoder's error. `orders` records in which order the maps' keys were visited. */
    method ReadPackagesFromFile(vendorFile: Option<seq<PackageRecord>>, composerFile: Result<InstalledFile, JsonError>)
      returns (err: Outcome<JsonError>, ghost orders: seq<KeyOrder>)
      modifies this
      ensures Verbose == old(Verbose)
      ensures vendorFile.None? && composerFile.Err? ==> err == Fail(composerFile.error) && Packages == old(Packages)
      ensures vendorFile.Some? ==>
                err == Pass && ValidOrders(vendorFile.value, orders)
                && Packages == old(Packages) + Listing(vendorFile.value, orders)
      ensures vendorFile.None? && composerFile.Ok? ==>
                err == Pass && ValidOrders(composerFile.value.packages, orders)
                && Packages == old(Packages) + composerFile.value.devPackageNames
                               + Listing(composerFile.value.packages, orders)
    {
      orders := [];
      var vendorflag := true;
      var data: seq<PackageRecord> := [];
      if vendorFile.None? {
        vendorflag := false;
      } else {
        data := vendorFile.value;
      }
      var data2 := InstalledFile([], []);
      if !vendorflag {
        if composerFile.Err? {
          return Fail(composerFile.error), orders;
        }
        data2 := composerFile.value;
      }
      var d: seq<PackageRecord>;
      if vendorflag {
        d := data;
      } else {
        d := data2.packages;
        AppendNames(data2.devPackageNames);
      }
      orders := AppendRecords(d);
      return Pass, orders;
    }

    /** `isAvailableInPublic(pkgname, retry)`: whether packagist.org knows the package, and how
        many requests that took. The first request goes out as request number `sent` of the
        scan. Only the first answer decides: a 429 leads to a retry whose verdict is thrown
        away. */
    function IsAvailableInPublic(pkgname: string, retry: int, server: Server, sent: nat): (r: ProbeResult)
      ensures r.available <==> retry <= MaxRetries
                               && (IsPlatformPackage(pkgname) || server(sent, DetailUrl(pkgname)) == Status(StatusOK))
      ensures r.requests <= RequestBudget(retry)
      ensures r.requests == 0 <==> retry > MaxRetries || IsPlatformPackage(pkgname)
      ensures (retry <= MaxRetries && !IsPlatformPackage(pkgname)
               && server(sent, DetailUrl(pkgname)) != Status(TooManyRequests)) ==> r.requests == 1
      decreases RequestBudget(retry)
    {
      if retry > MaxRetries then ProbeResult(false, 0)
      else if HasPrefix(pkgname, "ext-") then ProbeResult(true, 0)
      else
        match server(sent, DetailUrl(pkgname))
        case TransportError => ProbeResult(false, 1)
        case Status(code) =>
          if code == StatusOK then ProbeResult(true, 1)
          else if code == TooManyRequests then
            var retried := IsAvailableInPublic(pkgname, retry + 1, server, sent + 1);
            ProbeResult(false, 1 + retried.requests)
          else ProbeResult(false, 1)
    }

    /** What `PackagesNotInPublic` computes for `pkgs` when its first request is request
        number `sent`: the names reported as unavailable, in order, and the requests sent. */
    function NotInPublic(pkgs: seq<string>, server: Server, sent: nat): (r: ScanResult)
      ensures |r.notavail| <= |pkgs|
      ensures r.requests <= 4 * |pkgs|
      decreases |pkgs|
    {
      if pkgs == [] then ScanResult([], 0)
      else if pkgs[0] == "php" then NotInPublic(pkgs[1..], server, sent)
      else
        var probe := IsAvailableInPublic(pkgs[0], 0, server, sent);
        var rest := NotInPublic(pkgs[1..], server, sent + probe.requests);
        ScanResult((if probe.available then [] else [pkgs[0]]) + rest.notavail, probe.requests + rest.requests)
    }

    /** `PackagesNotInPublic()`: probe every collected name except `php`, in order, and
        return those packagist.org does not know. */
    method PackagesNotInPublic(server: Server) returns (notavail: seq<string>)
      ensures notavail == NotInPublic(Packages, server, 0).notavail
    {
      notavail := [];
      var sent: nat := 0;
      ghost var total := NotInPublic(Packages, server, 0);
      for i := 0 to |Packages|
        invariant notavail + NotInPublic(Packages[i..], server, sent).notavail == total.notavail
        invariant sent + NotInPublic(Packages[i..], server, sent).requests == total.requests
      {
        var pkg := Packages[i];
        assert Packages[i..][1..] == Packages[i + 1..];
        if pkg == "php" {
          continue;
        }
        var probe := IsAvailableInPublic(pkg, 0, server, sent);
        if !probe.available {
          notavail := notavail + [pkg];
        }
        sent := sent + probe.requests;
      }
    }
  }

  // ---------------------------------------------------------------------------------
  // What reading a file appends.

  /** The record loop's step: one more record adds its listing at the end. */
  lemma {:induction false} ListingSnoc(recs: seq<PackageRecord>, orders: seq<KeyOrder>, r: PackageRecord, o: KeyOrder)
    requires ValidOrders(recs, orders) && ValidOrder(r, o)
    ensures ValidOrders(recs + [r], orders + [o])
    ensures Listing(recs + [r], orders + [o]) == Listing(recs, orders) + RecordListing(r, o)
  {
    assert (recs + [r])[..|recs|] == recs;
    assert (orders + [o])[..|recs|] == orders;
    forall i | 0 <= i < |recs| + 1 ensures ValidOrder((recs + [r])[i], (orders + [o])[i]) {
      if i < |recs| {
        assert (recs + [r])[i] == recs[i] && (orders + [o])[i] == orders[i];
      }
    }
  }

  /** The record loop keeps its invariant. */
  lemma {:induction false} RecordLoopStep(start: seq<string>, before: seq<string>, after: seq<string>,
                                           d: seq<PackageRecord>, i: nat, orders: seq<KeyOrder>, o: KeyOrder)
    requires i < |d| && ValidOrders(d[..i], orders) && ValidOrder(d[i], o)
    requires before == start + Listing(d[..i], orders)
    requires after == before + RecordListing(d[i], o)
    ensures ValidOrders(d[..i + 1], orders + [o])
    ensures after == start + Listing(d[..i + 1], orders + [o])
  {
    ListingSnoc(d[..i], orders, d[i], o);
    assert d[..i + 1] == d[..i] + [d[i]];
  }

  /** A visit order of a map holds as many names as the map has keys, and no name twice. */
  lemma {:induction false} EnumerationDistinct(order: seq<string>, keys: set<string>)
    requires Enumerates(order, keys)
    ensures |order| == |keys|
    ensures forall i, j :: 0 <= i < j < |order| ==> order[i] != order[j]
  {
    assert |order| == |multiset(order)|;
    forall i, j | 0 <= i < j < |order| ensures order[i] != order[j] {
      var x := order[i];
      assert order == order[..i] + [x] + order[i + 1..j] + [order[j]] + order[j + 1..];
      assert multiset(keys)[x] <= 1;
    }
  }

  /** The listing has exactly the records' names, with multiplicity, whatever order the
      maps were visited in: only the order of the names depends on it. */
  lemma {:induction false} ListingContents(recs: seq<PackageRecord>, orders: seq<KeyOrder>)
    requires ValidOrders(recs, orders)
    ensures multiset(Listing(recs, orders)) == FlatMultiset(recs)
    ensures |Listing(recs, orders)| == FlatSize(recs)
    decreases |recs|
  {
    if recs != [] {
      var n := |recs| - 1;
      assert ValidOrders(recs[..n], orders[..n]) by {
        forall i | 0 <= i < n ensures ValidOrder(recs[..n][i], orders[..n][i]) {
          assert recs[..n][i] == recs[i] && orders[..n][i] == orders[i];
        }
      }
      ListingContents(recs[..n], orders[..n]);
      assert ValidOrder(recs[n], orders[n]);
      EnumerationDistinct(orders[n].require, recs[n].require.Keys);
      EnumerationDistinct(orders[n].requireDev, recs[n].requireDev.Keys);
    }
  }

  /** Two visits of the same records append the same names, with multiplicity. */
  lemma {:induction false} ListingOrderIrrelevant(recs: seq<PackageRecord>, orders1: seq<KeyOrder>, orders2: seq<KeyOrder>)
    requires ValidOrders(recs, orders1) && ValidOrders(recs, orders2)
    ensures multiset(Listing(recs, orders1)) == multiset(Listing(recs, orders2))
  {
    ListingContents(recs, orders1);
    ListingContents(recs, orders2);
  }

  /** Record `i`'s listing comes right after the listings of the records before it, so the
      records appear in the order of the list, each led by its own name. */
  lemma {:induction false} ListingSegment(recs: seq<PackageRecord>, orders: seq<KeyOrder>, i: nat)
    requires ValidOrders(recs, orders) && i < |recs|
    ensures |Listing(recs[..i], orders[..i])| == FlatSize(recs[..i])
    ensures Listing(recs[..i + 1], orders[..i + 1]) == Listing(recs[..i], orders[..i]) + RecordListing(recs[i], orders[i])
    ensures Listing(recs[..i + 1], orders[..i + 1]) <= Listing(recs, orders)
    ensures Listing(recs, orders)[FlatSize(recs[..i])] == recs[i].name
  {
    assert recs[..i + 1][..i] == recs[..i] && orders[..i + 1][..i] == orders[..i];
    ListingPrefix(recs, orders, i + 1);
    assert ValidOrders(recs[..i], orders[..i]) by {
      forall j | 0 <= j < i ensures ValidOrder(recs[..i][j], orders[..i][j]) {
        assert recs[..i][j] == recs[j] && orders[..i][j] == orders[j];
      }
    }
    ListingContents(recs[..i], orders[..i]);
  }

  /** The listing of a prefix of the records is a prefix of the listing. */
  lemma {:induction false} ListingPrefix(recs: seq<PackageRecord>, orders: seq<KeyOrder>, k: nat)
    requires |orders| == |recs| && k <= |recs|
    ensures Listing(recs[..k], orders[..k]) <= Listing(recs, orders)
    decreases |recs|
  {
    if k < |recs| {
      var n := |recs| - 1;
      assert recs[..n][..k] == recs[..k] && orders[..n][..k] == orders[..k];
      ListingPrefix(recs[..n], orders[..n], k);
    } else {
      assert recs[..k] == recs && orders[..k] == orders;
    }
  }

  /** Record `r` has `x` as its name, a `require` key or a `require-dev` key. */
  predicate Mentions(r: PackageRecord, x: string)
  {
    x == r.name || x in r.require || x in r.requireDev
  }

  /** A name is among one record's contributions exactly when the record mentions it. */
  lemma {:induction false} RecordMultisetMembers(r: PackageRecord, x: string)
    ensures x in RecordMultiset(r) <==> Mentions(r, x)
  {
    assert x in multiset(r.require.Keys) <==> x in r.require.Keys;
    assert x in multiset(r.requireDev.Keys) <==> x in r.requireDev.Keys;
  }

  /** Every name a record mentions is among the records' contributions. */
  lemma {:induction false} FlatMultisetIncludes(recs: seq<PackageRecord>, i: nat, x: string)
    requires i < |recs| && Mentions(recs[i], x)
    ensures x in FlatMultiset(recs)
    decreases |recs|
  {
    var n := |recs| - 1;
    if i == n {
      RecordMultisetMembers(recs[n], x);
    } else {
      assert recs[..n][i] == recs[i];
      FlatMultisetIncludes(recs[..n], i, x);
    }
  }

  /** Every name among the records' contributions is mentioned by some record: `i` is one. */
  lemma {:induction false} FlatMultisetWitness(recs: seq<PackageRecord>, x: string) returns (i: nat)
    requires x in FlatMultiset(recs)
    ensures i < |recs| && Mentions(recs[i], x)
    decreases |recs|
  {
    var n := |recs| - 1;
    RecordMultisetMembers(recs[n], x);
    if Mentions(recs[n], x) {
      i := n;
    } else {
      i := FlatMultisetWitness(recs[..n], x);
      assert recs[..n][i] == recs[i];
    }
  }

  /** After a successful read a name is collected exactly when it was collected before, is
      a development name, or is mentioned by some record. */
  lemma {:induction false} ReadMembers(before: seq<string>, devs: seq<string>, recs: seq<PackageRecord>,
                                        orders: seq<KeyOrder>, x: string)
    requires ValidOrders(recs, orders)
    ensures x in before + devs + Listing(recs, orders) <==>
              x in before || x in devs || exists i :: 0 <= i < |recs| && Mentions(recs[i], x)
  {
    ListingContents(recs, orders);
    assert x in Listing(recs, orders) <==> x in FlatMultiset(recs) by {
      assert x in Listing(recs, orders) <==> x in multiset(Listing(recs, orders));
    }
    if x in FlatMultiset(recs) {
      var i := FlatMultisetWitness(recs, x);
    }
    if exists i :: 0 <= i < |recs| && Mentions(recs[i], x) {
      var i :| 0 <= i < |recs| && Mentions(recs[i], x);
      FlatMultisetIncludes(recs, i, x);
    }
  }

  // ---------------------------------------------------------------------------------
  // What probing reports.

  /** A 429 followed by a 200 still gives "not available": the retry's verdict is discarded. */
  lemma {:induction false} RetrySuccessIsDiscarded(c: ComposerInstalledLookup, pkgname: string, server: Server, sent: nat)
    requires !IsPlatformPackage(pkgname)
    requires server(sent, DetailUrl(pkgname)) == Status(TooManyRequests)
    requires server(sent + 1, DetailUrl(pkgname)) == Status(StatusOK)
    ensures c.IsAvailableInPublic(pkgname, 0, server, sent) == ProbeResult(false, 2)
  {
    assert c.IsAvailableInPublic(pkgname, 1, server, sent + 1) == ProbeResult(true, 1);
  }

  /** A server that keeps answering 429 is asked once per permitted retry, and the package
      is reported as unavailable. */
  lemma {:induction false} ThrottledUntilGivingUp(c: ComposerInstalledLookup, pkgname: string, retry: int,
                                                   server: Server, sent: nat)
    requires !IsPlatformPackage(pkgname)
    requires ThrottledFrom(server, sent, DetailUrl(pkgname))
    ensures c.IsAvailableInPublic(pkgname, retry, server, sent) == ProbeResult(false, RequestBudget(retry))
    decreases RequestBudget(retry)
  {
    if retry <= MaxRetries {
      assert server(sent, DetailUrl(pkgname)) == Status(TooManyRequests);
      ThrottledUntilGivingUp(c, pkgname, retry + 1, server, sent + 1);
    }
  }

  /** The scan keeps the reported names in the order they were collected. */
  lemma {:induction false} NotInPublicIsSubsequence(c: ComposerInstalledLookup, pkgs: seq<string>, server: Server, sent: nat)
    ensures IsSubsequence(c.NotInPublic(pkgs, server, sent).notavail, pkgs)
    decreases |pkgs|
  {
    if pkgs != [] {
      var probe := c.IsAvailableInPublic(pkgs[0], 0, server, sent);
      var next := if pkgs[0] == "php" then sent else sent + probe.requests;
      NotInPublicIsSubsequence(c, pkgs[1..], server, next);
      var rest := c.NotInPublic(pkgs[1..], server, next).notavail;
      SubsequencePrepend(rest, pkgs[1..], pkgs[0]);
      assert pkgs == [pkgs[0]] + pkgs[1..];
      if pkgs[0] == "php" || probe.available {
        assert c.NotInPublic(pkgs, server, sent).notavail == rest;
      } else {
        assert c.NotInPublic(pkgs, server, sent).notavail == [pkgs[0]] + rest;
      }
    }
  }

  /** A reported name was collected, is not `php` and is not a platform package. */
  lemma {:induction false} NotInPublicReports(c: ComposerInstalledLookup, pkgs: seq<string>, server: Server, sent: nat, x: string)
    requires x in c.NotInPublic(pkgs, server, sent).notavail
    ensures x in pkgs && x != "php" && !IsPlatformPackage(x)
    decreases |pkgs|
  {
    var probe := c.IsAvailableInPublic(pkgs[0], 0, server, sent);
    var next := if pkgs[0] == "php" then sent else sent + probe.requests;
    if x != pkgs[0] || pkgs[0] == "php" || probe.available {
      NotInPublicReports(c, pkgs[1..], server, next, x);
    }
  }

  /** Against a registry whose answers do not change over time, a name is reported exactly
      when it was collected, is not `php`, is not a platform package and its page does not
      answer 200. */
  lemma {:induction false} NotInPublicStateless(c: ComposerInstalledLookup, pkgs: seq<string>, server: Server, sent: nat, x: string)
    requires Stateless(server)
    ensures x in c.NotInPublic(pkgs, server, sent).notavail <==>
              x in pkgs && x != "php" && !IsPlatformPackage(x) && server(0, DetailUrl(x)) != Status(StatusOK)
    decreases |pkgs|
  {
    if pkgs != [] {
      var probe := c.IsAvailableInPublic(pkgs[0], 0, server, sent);
      var next := if pkgs[0] == "php" then sent else sent + probe.requests;
      NotInPublicStateless(c, pkgs[1..], server, next, x);
      assert server(sent, DetailUrl(pkgs[0])) == server(0, DetailUrl(pkgs[0]));
      assert pkgs == [pkgs[0]] + pkgs[1..];
    }
  }
}
