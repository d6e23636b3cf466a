/**
  The read-only control-plane gate. It compares what the cloud provider lists and
  describes with an expected cluster and, when all agrees, issues a receipt with
  a digest over its own contents. The provider promises no order for clusters or
  regions; the gate's verdict and its receipt must not depend on one.
  */
module ControlPlaneGate {
  import opened Sequences

  // ----- decoded provider output -----

  datatype Field = Text(text: string) | Flag(flag: bool) | OtherOrMissing

  datatype Region = Region(name: Field, sqlDns: Field, primary: Field) | NotARegion

  datatype Regions = Regions(items: seq<Region>) | NotAList

  datatype ListedCluster = ListedCluster(name: Field, id: Field) | NotACluster

  datatype ClusterInfo = ClusterInfo(
    id: Field, name: Field, provider: Field, plan: Field, state: Field, version: Field, regions: Regions)

  datatype Expected = Expected(
    name: string, provider: string, region: string, plan: string, state: string, version: string, dnsSha: string)

  datatype Provenance = Provenance(binarySha: string, scriptSha: string, observedAt: string)

  // ----- results -----

  datatype Error =
    | IdentityNotUnique | FieldInvalid | ListInfoMismatch | RegionsInvalid
    | SqlDnsAmbiguous | ExpectationMismatch | RegionMismatch | SqlDnsIdentityMismatch

  datatype Result<T> = Ok(value: T) | Failed(error: Error)

  datatype Body = Body(
    provenance: Provenance, binaryPinMatch: bool, command: string,
    name: string, identitySha: string, provider: string, plan: string, state: string, version: string,
    regions: seq<string>, dnsSha: string)

  datatype Receipt = Receipt(body: Body, sha: string)

  const BINARY_SHA256 := "944c7a35f9fe6b166dea991040399ac4e1cf0c754d0514fd57d7c4333c5d4cb2"

  function RequiredString(field: Field): Result<string> {
    if field.Text? && field.text != "" then Ok(field.text) else Failed(FieldInvalid)
  }

  // ----- reading the regions -----

  datatype Row = Row(name: string, sqlDns: string, primary: bool)

  function ReadRegion(region: Region): Result<Row> {
    if region.NotARegion? then Failed(RegionsInvalid)
    else if RequiredString(region.name).Failed? || RequiredString(region.sqlDns).Failed? then Failed(FieldInvalid)
    else if !region.primary.Flag? then Failed(RegionsInvalid)
    else Ok(Row(region.name.text, region.sqlDns.text, region.primary.flag))
  }

  function ReadRegions(items: seq<Region>): Result<seq<Row>> {
    if items == [] then Ok([])
    else
      match ReadRegion(items[0])
      case Failed(error) => Failed(error)
      case Ok(row) =>
        match ReadRegions(items[1..])
        case Failed(error) => Failed(error)
        case Ok(rows) => Ok([row] + rows)
  }

  function Primaries(rows: seq<Row>): nat {
    if rows == [] then 0 else (if rows[0].primary then 1 else 0) + Primaries(rows[1..])
  }

  function Names(rows: seq<Row>): (names: seq<string>)
    ensures |names| == |rows| && forall i :: 0 <= i < |rows| ==> names[i] == rows[i].name
  {
    seq(|rows|, i requires 0 <= i < |rows| => rows[i].name)
  }

  function Endpoints(rows: seq<Row>): (endpoints: seq<string>)
    ensures |endpoints| == |rows| && forall i :: 0 <= i < |rows| ==> endpoints[i] == rows[i].sqlDns
  {
    seq(|rows|, i requires 0 <= i < |rows| => rows[i].sqlDns)
  }

  datatype Projection = Projection(names: seq<string>, sqlDns: string)

  function Judge(rows: seq<Row>): Result<Projection>
    requires rows != []
  {
    if |Distinct(Names(rows))| != |rows| || Primaries(rows) != 1 then Failed(RegionsInvalid)
    else if |Distinct(Endpoints(rows))| != 1 then Failed(SqlDnsAmbiguous)
    else Ok(Projection(Sorted(Names(rows)), rows[0].sqlDns))
  }

  function Project(regions: Regions): Result<Projection> {
    if regions.NotAList? || regions.items == [] then Failed(RegionsInvalid)
    else
      match ReadRegions(regions.items)
      case Failed(error) => Failed(error)
      case Ok(rows) => if rows == [] then Failed(RegionsInvalid) else Judge(rows)
  }

  // ----- text order and sorting -----

  predicate Before(a: string, b: string) {
    b != [] && (a == [] || a[0] < b[0] || (a[0] == b[0] && Before(a[1..], b[1..])))
  }

  lemma {:induction false} BeforeIsTransitive(a: string, b: string, c: string)
    requires Before(a, b) && Before(b, c)
    ensures Before(a, c)
  {
    if a != [] && a[0] == b[0] == c[0] {
      BeforeIsTransitive(a[1..], b[1..], c[1..]);
    }
  }

  lemma {:induction false} BeforeIsTotal(a: string, b: string)
    ensures Before(a, b) || a == b || Before(b, a)
    ensures !(Before(a, b) && a == b) && !(Before(a, b) && Before(b, a))
  {
    if a != [] && b != [] {
      BeforeIsTotal(a[1..], b[1..]);
      assert a == [a[0]] + a[1..] && b == [b[0]] + b[1..];
    }
  }

  function Insert(name: string, sorted: seq<string>): seq<string> {
    if sorted == [] || !Before(sorted[0], name) then [name] + sorted
    else [sorted[0]] + Insert(name, sorted[1..])
  }

  function Sorted(names: seq<string>): seq<string> {
    if names == [] then [] else Insert(names[0], Sorted(names[1..]))
  }

  predicate Ascending(names: seq<string>) {
    forall i, j :: 0 <= i < j < |names| ==> Before(names[i], names[j])
  }

  lemma {:induction false} InsertKeepsMembers(name: string, sorted: seq<string>)
    ensures multiset(Insert(name, sorted)) == multiset(sorted) + multiset{name}
  {
    if sorted != [] && Before(sorted[0], name) {
      InsertKeepsMembers(name, sorted[1..]);
      assert sorted == [sorted[0]] + sorted[1..];
    }
  }

  lemma {:induction false} InsertKeepsAscending(name: string, sorted: seq<string>)
    requires Ascending(sorted) && name !in sorted
    ensures Ascending(Insert(name, sorted))
  {
    if sorted == [] {
    } else if !Before(sorted[0], name) {
      BeforeIsTotal(name, sorted[0]);
      forall i | 0 < i < |sorted| ensures Before(name, sorted[i]) {
        BeforeIsTransitive(name, sorted[0], sorted[i]);
      }
    } else {
      var rest := Insert(name, sorted[1..]);
      InsertKeepsAscending(name, sorted[1..]);
      InsertKeepsMembers(name, sorted[1..]);
      forall i | 0 <= i < |rest| ensures Before(sorted[0], rest[i]) {
        assert rest[i] in multiset(rest);
      }
    }
  }

  lemma {:induction false} SortedKeepsMembers(names: seq<string>)
    ensures multiset(Sorted(names)) == multiset(names)
  {
    if names != [] {
      SortedKeepsMembers(names[1..]);
      InsertKeepsMembers(names[0], Sorted(names[1..]));
      assert names == [names[0]] + names[1..];
    }
  }

  /** Distinct names come out in strictly ascending order. */
  lemma {:induction false} SortedIsAscending(names: seq<string>)
    requires forall i, j :: 0 <= i < j < |names| ==> names[i] != names[j]
    ensures Ascending(Sorted(names))
  {
    if names != [] {
      var rest := names[1..];
      SortedIsAscending(rest);
      SortedKeepsMembers(rest);
      assert names[0] !in rest;
      assert names[0] !in multiset(Sorted(rest));
      InsertKeepsAscending(names[0], Sorted(rest));
    }
  }

  /** An ascending list is determined by its members. */
  lemma {:induction false} AscendingIsUnique(a: seq<string>, b: seq<string>)
    requires Ascending(a) && Ascending(b)
    requires forall name :: name in a <==> name in b
    ensures a == b
  {
    assert a == [] || a[0] in a;
    assert b == [] || b[0] in b;
    if a != [] && b != [] {
      FirstIsLeast(a, b[0]);
      FirstIsLeast(b, a[0]);
      BeforeIsTotal(a[0], b[0]);
      NoRepeats(a);
      NoRepeats(b);
      forall name ensures name in a[1..] <==> name in b[1..] {
        assert name in a[1..] <==> name in a && name != a[0];
        assert name in b[1..] <==> name in b && name != b[0];
      }
      AscendingIsUnique(a[1..], b[1..]);
      assert a == [a[0]] + a[1..] && b == [b[0]] + b[1..];
    }
  }

  lemma FirstIsLeast(names: seq<string>, name: string)
    requires Ascending(names) && name in names
    ensures name == names[0] || Before(names[0], name)
  {
  }

  lemma NoRepeats(names: seq<string>)
    requires Ascending(names)
    ensures forall i, j :: 0 <= i < j < |names| ==> names[i] != names[j]
  {
    forall i, j | 0 <= i < j < |names| ensures names[i] != names[j] {
      BeforeIsTotal(names[i], names[j]);
    }
  }

  // ----- what the region checks mean, without any order -----

  predicate Readable(region: Region) {
    ReadRegion(region).Ok?
  }

  function RowOf(region: Region): Row
    requires Readable(region)
  {
    ReadRegion(region).value
  }

  predicate FilledText(field: Field) {
    field.Text? && field.text != ""
  }

  /** Which regions are readable, as what, and why others are not. */
  lemma ReadingIsExact(region: Region)
    ensures Readable(region) <==>
              region.Region? && FilledText(region.name) && FilledText(region.sqlDns) && region.primary.Flag?
    ensures Readable(region) ==>
              RowOf(region) == Row(region.name.text, region.sqlDns.text, region.primary.flag)
    ensures !Readable(region) ==>
              (ReadRegion(region) ==
               Failed(if region.Region? && !(FilledText(region.name) && FilledText(region.sqlDns)) then FieldInvalid
                      else RegionsInvalid))
  {
  }

  predicate AllReadable(m: multiset<Region>) {
    forall r :: r in m ==> Readable(r)
  }

  predicate DistinctNames(m: multiset<Region>)
    requires AllReadable(m)
  {
    && (forall r :: r in m ==> m[r] == 1)
    && (forall r, s :: r in m && s in m && r != s ==> RowOf(r).name != RowOf(s).name)
  }

  predicate SolePrimary(m: multiset<Region>, p: Region)
    requires AllReadable(m)
  {
    p in m && m[p] == 1 && RowOf(p).primary && forall r :: r in m && r != p ==> !RowOf(r).primary
  }

  predicate OnePrimary(m: multiset<Region>)
    requires AllReadable(m)
  {
    exists p :: p in m && SolePrimary(m, p)
  }

  predicate OneEndpoint(m: multiset<Region>)
    requires AllReadable(m)
  {
    m != multiset{} && forall r, s :: r in m && s in m ==> RowOf(r).sqlDns == RowOf(s).sqlDns
  }

  predicate GoodRegions(m: multiset<Region>) {
    AllReadable(m) && DistinctNames(m) && OnePrimary(m) && OneEndpoint(m)
  }

  lemma {:induction false} ReadRegionsIsPointwise(items: seq<Region>)
    ensures ReadRegions(items).Ok? <==> AllReadable(multiset(items))
    ensures ReadRegions(items).Ok? ==>
              && |ReadRegions(items).value| == |items|
              && forall i :: 0 <= i < |items| ==> ReadRegion(items[i]) == Ok(ReadRegions(items).value[i])
  {
    if items != [] {
      ReadRegionsIsPointwise(items[1..]);
      assert items == [items[0]] + items[1..];
      var all, others := multiset(items), multiset(items[1..]);
      assert all == multiset{items[0]} + others;
      assert AllReadable(all) <==> Readable(items[0]) && AllReadable(others) by {
        assert forall r :: r in all <==> r == items[0] || r in others;
      }
    }
  }

  lemma {:induction false} MultiplicityOne<T>(s: seq<T>)
    ensures PairwiseDistinct(s) <==> forall x :: x in s ==> multiset(s)[x] == 1
  {
    if s != [] {
      var rest := s[1..];
      MultiplicityOne(rest);
      assert s == [s[0]] + rest;
      assert multiset(s) == multiset{s[0]} + multiset(rest);
      if s[0] in rest {
        var k :| 0 <= k < |rest| && rest[k] == s[0];
        assert s[0] == s[k + 1];
        assert multiset(s)[s[0]] > 1;
      } else {
        assert forall i, j :: 0 < i < j < |s| ==> s[i] == rest[i - 1] && s[j] == rest[j - 1];
        assert PairwiseDistinct(rest) <==> PairwiseDistinct(s);
        assert forall x :: x in rest ==> multiset(s)[x] == multiset(rest)[x];
        assert forall x :: x in s ==> x == s[0] || x in rest;
      }
    }
  }

  predicate NoPrimary(m: multiset<Region>)
    requires AllReadable(m)
  {
    forall r :: r in m ==> !RowOf(r).primary
  }

  lemma AddingOne(m: multiset<Region>, region: Region)
    requires AllReadable(m) && Readable(region)
    ensures AllReadable(multiset{region} + m)
    ensures NoPrimary(multiset{region} + m) <==> !RowOf(region).primary && NoPrimary(m)
    ensures RowOf(region).primary ==> (OnePrimary(multiset{region} + m) <==> NoPrimary(m))
    ensures !RowOf(region).primary ==> (OnePrimary(multiset{region} + m) <==> OnePrimary(m))
  {
    hide ReadRegion;
    var all := multiset{region} + m;
    assert forall r :: r in all <==> r == region || r in m;
    if RowOf(region).primary {
      assert SolePrimary(all, region) <==> NoPrimary(m);
      assert forall p :: p in all && SolePrimary(all, p) ==> p == region;
    } else {
      assert forall p :: p in m ==> (SolePrimary(all, p) <==> SolePrimary(m, p));
      assert forall p :: p in all && SolePrimary(all, p) ==> p in m;
    }
  }

  ghost predicate Reads(items: seq<Region>, rows: seq<Row>) {
    |rows| == |items| && forall i :: 0 <= i < |items| ==> ReadRegion(items[i]) == Ok(rows[i])
  }

  lemma ReadsAllReadable(items: seq<Region>, rows: seq<Row>)
    requires Reads(items, rows)
    ensures AllReadable(multiset(items))
  {
    forall r | r in multiset(items) ensures Readable(r) {
      assert r in items;
    }
  }

  lemma {:induction false} PrimariesCounts(items: seq<Region>, rows: seq<Row>)
    requires Reads(items, rows)
    ensures AllReadable(multiset(items))
    ensures Primaries(rows) == 0 <==> NoPrimary(multiset(items))
    ensures Primaries(rows) == 1 <==> OnePrimary(multiset(items))
  {
    ReadsAllReadable(items, rows);
    if items != [] {
      PrimariesCounts(items[1..], rows[1..]);
      AddingOne(multiset(items[1..]), items[0]);
      assert items == [items[0]] + items[1..];
      assert multiset(items) == multiset{items[0]} + multiset(items[1..]);
    }
  }

  lemma NamesApart(items: seq<Region>, rows: seq<Row>)
    requires Reads(items, rows) && AllReadable(multiset(items))
    requires PairwiseDistinct(items)
    requires forall r, s :: r in multiset(items) && s in multiset(items) && r != s ==> RowOf(r).name != RowOf(s).name
    ensures PairwiseDistinct(Names(rows))
  {
    hide ReadRegion;
    var names := Names(rows);
    forall i, j | 0 <= i < j < |names| ensures names[i] != names[j] {
      assert items[i] in multiset(items) && items[j] in multiset(items);
    }
  }

  lemma RegionsApart(items: seq<Region>, rows: seq<Row>)
    requires Reads(items, rows) && AllReadable(multiset(items))
    requires PairwiseDistinct(Names(rows))
    ensures PairwiseDistinct(items)
    ensures forall r, s :: r in multiset(items) && s in multiset(items) && r != s ==> RowOf(r).name != RowOf(s).name
  {
    hide ReadRegion;
    var names := Names(rows);
    forall i, j | 0 <= i < j < |items| ensures items[i] != items[j] {
      assert names[i] != names[j];
    }
    forall r, s | r in multiset(items) && s in multiset(items) && r != s ensures RowOf(r).name != RowOf(s).name {
      assert r in items && s in items;
      var i, j :| 0 <= i < |items| && 0 <= j < |items| && items[i] == r && items[j] == s;
      assert names[i] != names[j];
    }
  }

  lemma NamesAreDistinct(items: seq<Region>, rows: seq<Row>)
    requires Reads(items, rows)
    ensures AllReadable(multiset(items))
    ensures |Distinct(Names(rows))| == |rows| <==> DistinctNames(multiset(items))
  {
    ReadsAllReadable(items, rows);
    DistinctCount(Names(rows));
    MultiplicityOne(items);
    hide ReadRegion, PairwiseDistinct, Distinct;
    if PairwiseDistinct(Names(rows)) {
      RegionsApart(items, rows);
    }
    if DistinctNames(multiset(items)) {
      NamesApart(items, rows);
    }
  }

  lemma EndpointsAgree(items: seq<Region>, rows: seq<Row>)
    requires Reads(items, rows)
    ensures AllReadable(multiset(items))
    ensures |Distinct(Endpoints(rows))| == 1 <==> OneEndpoint(multiset(items))
  {
    ReadsAllReadable(items, rows);
    var m, endpoints := multiset(items), Endpoints(rows);
    hide ReadRegion;
    if OneEndpoint(m) {
      assert forall i :: 0 <= i < |items| ==> items[i] in m;
      assert items != [];
      assert forall i :: 0 <= i < |endpoints| ==> endpoints[i] == endpoints[0];
      assert Distinct(endpoints) == {endpoints[0]};
    }
    if |Distinct(endpoints)| == 1 {
      OneMember(Distinct(endpoints));
      forall r, s | r in m && s in m ensures RowOf(r).sqlDns == RowOf(s).sqlDns {
        assert r in items && s in items;
        var i, j :| 0 <= i < |items| && 0 <= j < |items| && items[i] == r && items[j] == s;
        assert endpoints[i] in Distinct(endpoints) && endpoints[j] in Distinct(endpoints);
      }
      assert items != [];
      assert items[0] in m;
    }
  }

  lemma OneMember<T>(s: set<T>)
    requires |s| == 1
    ensures forall x, y :: x in s && y in s ==> x == y
  {
    forall x, y | x in s && y in s ensures x == y {
      assert |s - {x}| == 0;
      assert y !in s - {x};
    }
  }

  /** What a projection says about the regions it was made from. */
  ghost predicate Describes(projection: Projection, m: multiset<Region>)
    requires AllReadable(m)
  {
    && Ascending(projection.names)
    && (forall name :: name in projection.names <==> exists r :: r in m && RowOf(r).name == name)
    && (forall r :: r in m ==> RowOf(r).sqlDns == projection.sqlDns)
  }

  lemma JudgeDescribes(items: seq<Region>, rows: seq<Row>)
    requires Reads(items, rows) && rows != [] && Judge(rows).Ok?
    ensures AllReadable(multiset(items)) && Describes(Judge(rows).value, multiset(items))
  {
    ReadsAllReadable(items, rows);
    EndpointsAgree(items, rows);
    DistinctCount(Names(rows));
    SortedKeepsMembers(Names(rows));
    SortedIsAscending(Names(rows));
    var m, names, sorted := multiset(items), Names(rows), Sorted(Names(rows));
    hide ReadRegion, Sorted;
    forall name ensures name in sorted <==> exists r :: r in m && RowOf(r).name == name {
      assert name in sorted <==> name in multiset(sorted);
      assert name in names <==> name in multiset(names);
      if name in names {
        var i :| 0 <= i < |names| && names[i] == name;
        assert items[i] in m;
      }
      if r :| r in m && RowOf(r).name == name {
        assert r in items;
        var i :| 0 <= i < |items| && items[i] == r;
        assert names[i] == name;
      }
    }
    assert items[0] in m;
  }

  /**
    The region checks pass exactly when every region is readable, names are
    distinct, exactly one region is primary and all endpoints agree; and then the
    projection lists all the names in ascending order beside the one endpoint.
    */
  lemma ProjectionIsExact(items: seq<Region>)
    ensures Project(Regions(items)).Ok? <==> GoodRegions(multiset(items))
    ensures Project(Regions(items)).Ok? ==> Describes(Project(Regions(items)).value, multiset(items))
    ensures AllReadable(multiset(items)) && items != [] && Project(Regions(items)).Failed? ==>
              Project(Regions(items)).error ==
                if DistinctNames(multiset(items)) && OnePrimary(multiset(items)) then SqlDnsAmbiguous else RegionsInvalid
  {
    ReadRegionsIsPointwise(items);
    if items != [] && ReadRegions(items).Ok? {
      var rows := ReadRegions(items).value;
      NamesAreDistinct(items, rows);
      PrimariesCounts(items, rows);
      EndpointsAgree(items, rows);
      if Judge(rows).Ok? {
        JudgeDescribes(items, rows);
      }
    }
  }

  lemma OneDescription(a: Projection, b: Projection, m: multiset<Region>)
    requires AllReadable(m) && m != multiset{} && Describes(a, m) && Describes(b, m)
    ensures a == b
  {
    assert forall name :: name in a.names <==> name in b.names;
    AscendingIsUnique(a.names, b.names);
    var r :| r in m;
  }

  /** Reordering the regions never changes a projection that is made. */
  lemma ProjectionIgnoresOrder(a: seq<Region>, b: seq<Region>)
    requires multiset(a) == multiset(b)
    ensures Project(Regions(a)).Ok? <==> Project(Regions(b)).Ok?
    ensures Project(Regions(a)).Ok? ==> Project(Regions(a)) == Project(Regions(b))
    ensures AllReadable(multiset(a)) ==> Project(Regions(a)) == Project(Regions(b))
  {
    ProjectionIsExact(a);
    ProjectionIsExact(b);
    assert a == [] <==> multiset(a) == multiset{};
    assert b == [] <==> multiset(b) == multiset{};
    if Project(Regions(a)).Ok? {
      OneDescription(Project(Regions(a)).value, Project(Regions(b)).value, multiset(a));
    }
  }

  /** All unreadable regions are unreadable for the same reason. */
  predicate OneReason(m: multiset<Region>) {
    forall r, s :: r in m && s in m && !Readable(r) && !Readable(s) ==> ReadRegion(r) == ReadRegion(s)
  }

  /** A refused reading gives the reason of some unreadable region. */
  lemma {:induction false} RefusalHasCulprit(items: seq<Region>) returns (culprit: Region)
    requires !AllReadable(multiset(items))
    ensures culprit in items && !Readable(culprit)
    ensures Project(Regions(items)) == Failed(ReadRegion(culprit).error)
    ensures ReadRegions(items) == Failed(ReadRegion(culprit).error)
  {
    assert items != [];
    assert items == [items[0]] + items[1..];
    assert multiset(items) == multiset{items[0]} + multiset(items[1..]);
    culprit := items[0];
    if Readable(culprit) {
      culprit := RefusalHasCulprit(items[1..]);
    }
  }

  /** Any unreadable region decides the reason of some ordering. */
  lemma CulpritInFront(items: seq<Region>, culprit: Region) returns (reordered: seq<Region>)
    requires culprit in items && !Readable(culprit)
    ensures multiset(reordered) == multiset(items)
    ensures Project(Regions(reordered)) == Failed(ReadRegion(culprit).error)
  {
    var i :| 0 <= i < |items| && items[i] == culprit;
    reordered := [culprit] + items[..i] + items[i + 1..];
    assert items == items[..i] + [culprit] + items[i + 1..];
  }

  ghost predicate ProjectionIsOrderFree(items: seq<Region>) {
    forall others: seq<Region> ::
      multiset(others) == multiset(items) ==> Project(Regions(others)) == Project(Regions(items))
  }

  /**
    The reason of a refusal is that of the first unreadable region: it is the same
    for every order of the regions exactly when all unreadable regions have one
    reason.
    */
  lemma ReasonDependsOnOrder(items: seq<Region>)
    ensures ProjectionIsOrderFree(items) <==> OneReason(multiset(items))
  {
    if OneReason(multiset(items)) {
      forall others: seq<Region> | multiset(others) == multiset(items)
        ensures Project(Regions(others)) == Project(Regions(items))
      {
        OneReasonOneResult(items, others);
      }
    }
    if ProjectionIsOrderFree(items) {
      forall r, s | r in multiset(items) && s in multiset(items) && !Readable(r) && !Readable(s)
        ensures ReadRegion(r) == ReadRegion(s)
      {
        assert r in items && s in items;
        var first := CulpritInFront(items, r);
        var second := CulpritInFront(items, s);
        assert Project(Regions(first)) == Project(Regions(second));
      }
    }
  }

  /** A region that is no object and one without a name: two orders, two reasons. */
  lemma TwoReasons()
    ensures exists a: seq<Region>, b: seq<Region> ::
              && multiset(a) == multiset(b)
              && Project(Regions(a)) == Failed(RegionsInvalid)
              && Project(Regions(b)) == Failed(FieldInvalid)
  {
    var nameless := Region(OtherOrMissing, Text("dns"), Flag(true));
    var a, b := [NotARegion, nameless], [nameless, NotARegion];
    assert multiset(a) == multiset(b);
    assert Project(Regions(a)) == Failed(RegionsInvalid);
    assert Project(Regions(b)) == Failed(FieldInvalid);
  }

  lemma OneReasonOneResult(a: seq<Region>, b: seq<Region>)
    requires multiset(a) == multiset(b) && OneReason(multiset(a))
    ensures Project(Regions(a)) == Project(Regions(b))
  {
    if AllReadable(multiset(a)) {
      ProjectionIgnoresOrder(a, b);
    } else {
      var r := RefusalHasCulprit(a);
      var s := RefusalHasCulprit(b);
      assert r in multiset(a) && s in multiset(b);
    }
  }

  // ----- the region loop -----

  lemma {:induction false} PrimariesAppend(rows: seq<Row>, row: Row)
    ensures Primaries(rows + [row]) == Primaries(rows) + if row.primary then 1 else 0
  {
    if rows != [] {
      assert (rows + [row])[1..] == rows[1..] + [row];
      PrimariesAppend(rows[1..], row);
    }
  }

  /** What reading `items` gives once `rows` have been read from its front. */
  function Continue(rows: seq<Row>, items: seq<Region>): Result<seq<Row>> {
    match ReadRegions(items)
    case Failed(error) => Failed(error)
    case Ok(rest) => Ok(rows + rest)
  }

  lemma ContinueStep(rows: seq<Row>, items: seq<Region>)
    requires items != []
    ensures Continue(rows, items) ==
              match ReadRegion(items[0])
              case Failed(error) => Failed(error)
              case Ok(row) => Continue(rows + [row], items[1..])
  {
    if ReadRegion(items[0]).Ok? && ReadRegions(items[1..]).Ok? {
      Associative(rows, [ReadRegion(items[0]).value], ReadRegions(items[1..]).value);
    }
  }

  method RegionProjection(regions: Regions) returns (r: Result<Projection>)
    ensures r == Project(regions)
  {
    if regions.NotAList? || regions.items == [] {
      return Failed(RegionsInvalid);
    }
    var items := regions.items;
    var names, endpoints, primaryCount: nat := [], [], 0;
    ghost var rows: seq<Row> := [];
    assert forall rest: seq<Row> :: rows + rest == rest;
    for i := 0 to |items|
      invariant |rows| == i && ReadRegions(items) == Continue(rows, items[i..])
      invariant names == Names(rows) && endpoints == Endpoints(rows) && primaryCount == Primaries(rows)
    {
      var raw := items[i];
      ContinueStep(rows, items[i..]);
      if raw.NotARegion? {
        return Failed(RegionsInvalid);
      }
      var name, sqlDns := RequiredString(raw.name), RequiredString(raw.sqlDns);
      if name.Failed? {
        return Failed(name.error);
      }
      if sqlDns.Failed? {
        return Failed(sqlDns.error);
      }
      if !raw.primary.Flag? {
        return Failed(RegionsInvalid);
      }
      var row := Row(name.value, sqlDns.value, raw.primary.flag);
      PrimariesAppend(rows, row);
      rows := rows + [row];
      names := names + [name.value];
      endpoints := endpoints + [sqlDns.value];
      primaryCount := primaryCount + if raw.primary.flag then 1 else 0;
    }
    assert rows + [] == rows;
    if |Distinct(names)| != |names| || primaryCount != 1 {
      return Failed(RegionsInvalid);
    }
    if |Distinct(endpoints)| != 1 {
      return Failed(SqlDnsAmbiguous);
    }
    return Ok(Projection(Sorted(names), endpoints[0]));
  }

  // ----- the receipt -----

  predicate Named(cluster: ListedCluster, name: string) {
    cluster.ListedCluster? && cluster.name == Text(name)
  }

  function Matches(list: seq<ListedCluster>, name: string): (matches: seq<ListedCluster>)
    ensures forall i :: 0 <= i < |matches| ==> Named(matches[i], name)
  {
    if list == [] then []
    else (if Named(list[0], name) then [list[0]] else []) + Matches(list[1..], name)
  }

  /** The fields read from the description before its regions are looked at. */
  function Readings(info: ClusterInfo): Result<Expected> {
    var name := RequiredString(info.name);
    var provider := RequiredString(info.provider);
    var plan := RequiredString(info.plan);
    var state := RequiredString(info.state);
    var version := RequiredString(info.version);
    if name.Ok? && provider.Ok? && plan.Ok? && state.Ok? && version.Ok? then
      Ok(Expected(name.value, provider.value, "", plan.value, state.value, version.value, ""))
    else Failed(FieldInvalid)
  }

  function Issue(
      listed: Field, info: ClusterInfo, projected: Result<Projection>, expected: Expected, provenance: Provenance,
      sha: string -> string, canonical: Body -> string): Result<Receipt> {
    var listedId, infoId := RequiredString(listed), RequiredString(info.id);
    if listedId.Failed? || infoId.Failed? then Failed(FieldInvalid)
    else if listedId.value != infoId.value then Failed(ListInfoMismatch)
    else
      match Readings(info)
      case Failed(error) => Failed(error)
      case Ok(actual) =>
        match projected
        case Failed(error) => Failed(error)
        case Ok(projection) =>
          if actual != expected.(region := "", dnsSha := "") then Failed(ExpectationMismatch)
          else if expected.region !in projection.names then Failed(RegionMismatch)
          else if sha(projection.sqlDns) != expected.dnsSha then Failed(SqlDnsIdentityMismatch)
          else
            var body := Body(
              provenance, provenance.binarySha == BINARY_SHA256,
              "ccloud cluster info " + expected.name + " --output json --quiet",
              actual.name, sha(infoId.value), actual.provider, actual.plan, actual.state, actual.version,
              projection.names, expected.dnsSha);
            Ok(Receipt(body, sha(canonical(body))))
  }

  function BuildReceipt(
      list: seq<ListedCluster>, info: ClusterInfo, expected: Expected, provenance: Provenance,
      sha: string -> string, canonical: Body -> string): Result<Receipt> {
    var matches := Matches(list, expected.name);
    if |matches| != 1 then Failed(IdentityNotUnique)
    else Issue(matches[0].id, info, Project(info.regions), expected, provenance, sha, canonical)
  }

  // ----- what a receipt certifies, without any order -----

  predicate SoleListing(list: multiset<ListedCluster>, name: string, id: Field) {
    var listed := ListedCluster(Text(name), id);
    list[listed] == 1 && forall c :: c in list && Named(c, name) ==> c == listed
  }

  predicate Holds(field: Field, text: string) {
    field == Text(text) && text != ""
  }

  /** Everything the gate demands of the provider's answers. */
  predicate Certified(list: multiset<ListedCluster>, info: ClusterInfo, expected: Expected, sha: string -> string) {
    && SoleListing(list, expected.name, info.id) && RequiredString(info.id).Ok?
    && Holds(info.name, expected.name) && Holds(info.provider, expected.provider)
    && Holds(info.plan, expected.plan) && Holds(info.state, expected.state) && Holds(info.version, expected.version)
    && info.regions.Regions? && GoodRegions(multiset(info.regions.items))
    && (exists r :: r in multiset(info.regions.items) && RowOf(r).name == expected.region)
    && (forall r :: r in multiset(info.regions.items) ==> sha(RowOf(r).sqlDns) == expected.dnsSha)
  }

  lemma {:induction false} MatchesAreAll(list: seq<ListedCluster>, name: string, c: ListedCluster)
    ensures multiset(Matches(list, name))[c] == if Named(c, name) then multiset(list)[c] else 0
  {
    if list != [] {
      MatchesAreAll(list[1..], name, c);
      assert list == [list[0]] + list[1..];
      assert multiset(list) == multiset{list[0]} + multiset(list[1..]);
    }
  }

  lemma OneMatch(list: seq<ListedCluster>, name: string, id: Field)
    ensures Matches(list, name) == [ListedCluster(Text(name), id)] <==> SoleListing(multiset(list), name, id)
  {
    var matches, listed := Matches(list, name), ListedCluster(Text(name), id);
    forall c ensures multiset(matches)[c] == if Named(c, name) then multiset(list)[c] else 0 {
      MatchesAreAll(list, name, c);
    }
    if SoleListing(multiset(list), name, id) {
      assert multiset(matches) == multiset{listed};
      assert |matches| == |multiset(matches)| == 1;
      assert matches[0] in multiset(matches);
    }
    if matches == [listed] {
      assert multiset(matches) == multiset{listed};
      assert forall c :: c in multiset(list) && Named(c, name) ==> multiset(matches)[c] > 0;
    }
  }

  lemma IssueIsExact(
      listed: Field, info: ClusterInfo, projected: Result<Projection>, expected: Expected, provenance: Provenance,
      sha: string -> string, canonical: Body -> string)
    ensures Issue(listed, info, projected, expected, provenance, sha, canonical).Ok? <==>
              && listed == info.id && RequiredString(info.id).Ok?
              && Holds(info.name, expected.name) && Holds(info.provider, expected.provider)
              && Holds(info.plan, expected.plan) && Holds(info.state, expected.state)
              && Holds(info.version, expected.version)
              && projected.Ok? && expected.region in projected.value.names
              && sha(projected.value.sqlDns) == expected.dnsSha
  {
  }

  /**
    A receipt is issued exactly when the answers agree with what is expected; its
    regions are all the described regions in ascending order, and its digest is
    over its own body.
    */
  lemma ReceiptIsExact(
      list: seq<ListedCluster>, info: ClusterInfo, expected: Expected, provenance: Provenance,
      sha: string -> string, canonical: Body -> string)
    ensures BuildReceipt(list, info, expected, provenance, sha, canonical).Ok? <==>
              Certified(multiset(list), info, expected, sha)
    ensures BuildReceipt(list, info, expected, provenance, sha, canonical).Ok? ==>
              var receipt := BuildReceipt(list, info, expected, provenance, sha, canonical).value;
              && Describes(Projection(receipt.body.regions, Project(info.regions).value.sqlDns),
                           multiset(info.regions.items))
              && receipt.body.provenance == provenance
              && (receipt.body.binaryPinMatch <==> provenance.binarySha == BINARY_SHA256)
              && receipt.body.command == "ccloud cluster info " + expected.name + " --output json --quiet"
              && receipt.body.identitySha == sha(info.id.text)
              && receipt.body.name == info.name.text == expected.name
              && receipt.body.provider == info.provider.text == expected.provider
              && receipt.body.plan == info.plan.text == expected.plan
              && receipt.body.state == info.state.text == expected.state
              && receipt.body.version == info.version.text == expected.version
              && receipt.body.dnsSha == expected.dnsSha
              && receipt.sha == sha(canonical(receipt.body))
  {
    var matches := Matches(list, expected.name);
    OneMatch(list, expected.name, info.id);
    if |matches| == 1 {
      IssueIsExact(matches[0].id, info, Project(info.regions), expected, provenance, sha, canonical);
    }
    if info.regions.Regions? {
      ProjectionIsExact(info.regions.items);
      hide ReadRegion, GoodRegions, Project, Matches;
      if Project(info.regions).Ok? {
        RegionIsDescribed(info.regions.items, Project(info.regions).value, expected, sha);
      }
    }
  }

  predicate ReadableInfo(info: ClusterInfo) {
    FilledText(info.name) && FilledText(info.provider) && FilledText(info.plan) && FilledText(info.state)
    && FilledText(info.version)
  }

  predicate AsExpected(info: ClusterInfo, expected: Expected) {
    && info.name == Text(expected.name) && info.provider == Text(expected.provider) && info.plan == Text(expected.plan)
    && info.state == Text(expected.state) && info.version == Text(expected.version)
  }

  /** Why a receipt is refused: no sole listing under the name; otherwise, the first of
      these grounds. */
  lemma ReasonIsExact(
      list: seq<ListedCluster>, id: Field, info: ClusterInfo, expected: Expected, provenance: Provenance,
      sha: string -> string, canonical: Body -> string)
    ensures var outcome := BuildReceipt(list, info, expected, provenance, sha, canonical);
            && (outcome == Failed(IdentityNotUnique) <==>
                  forall other :: !SoleListing(multiset(list), expected.name, other))
            && (SoleListing(multiset(list), expected.name, id) && outcome.Failed? ==>
                  (outcome.error ==
                   if !FilledText(id) || !FilledText(info.id) then FieldInvalid
                   else if id != info.id then ListInfoMismatch
                   else if !ReadableInfo(info) then FieldInvalid
                   else if Project(info.regions).Failed? then Project(info.regions).error
                   else if !AsExpected(info, expected) then ExpectationMismatch
                   else if expected.region !in Project(info.regions).value.names then RegionMismatch
                   else SqlDnsIdentityMismatch))
  {
    var matches := Matches(list, expected.name);
    forall other ensures matches == [ListedCluster(Text(expected.name), other)] <==>
                         SoleListing(multiset(list), expected.name, other)
    {
      OneMatch(list, expected.name, other);
    }
    if |matches| == 1 {
      assert matches == [matches[0]] && Named(matches[0], expected.name);
      assert matches[0] == ListedCluster(Text(expected.name), matches[0].id);
    }
    ProjectReasons(info.regions);
    hide Project, Matches, SoleListing;
  }

  lemma ProjectReasons(regions: Regions)
    ensures Project(regions).Failed? ==> Project(regions).error in {FieldInvalid, RegionsInvalid, SqlDnsAmbiguous}
  {
    if regions.Regions? {
      if AllReadable(multiset(regions.items)) {
        ProjectionIsExact(regions.items);
      } else {
        var culprit := RefusalHasCulprit(regions.items);
      }
    }
  }

  lemma RegionIsDescribed(items: seq<Region>, projection: Projection, expected: Expected, sha: string -> string)
    requires items != [] && AllReadable(multiset(items)) && Describes(projection, multiset(items))
    ensures expected.region in projection.names <==>
              exists r :: r in multiset(items) && RowOf(r).name == expected.region
    ensures sha(projection.sqlDns) == expected.dnsSha <==>
              forall r :: r in multiset(items) ==> sha(RowOf(r).sqlDns) == expected.dnsSha
  {
    assert items[0] in multiset(items);
  }

  /** The checks before the regions have passed, so that their reasons can show. */
  predicate ReachesRegions(list: multiset<ListedCluster>, info: ClusterInfo, expected: Expected) {
    SoleListing(list, expected.name, info.id) && RequiredString(info.id).Ok? && Readings(info).Ok?
  }

  lemma BuildBeforeRegions(
      list: seq<ListedCluster>, info: ClusterInfo, expected: Expected, provenance: Provenance,
      sha: string -> string, canonical: Body -> string)
    ensures ReachesRegions(multiset(list), info, expected) && Project(info.regions).Failed? ==>
              BuildReceipt(list, info, expected, provenance, sha, canonical) == Failed(Project(info.regions).error)
    ensures !ReachesRegions(multiset(list), info, expected) ==>
              BuildReceipt(list, info, expected, provenance, sha, canonical).Failed?
    ensures !ReachesRegions(multiset(list), info, expected) ==>
              forall regions: Regions ::
                BuildReceipt(list, info.(regions := regions), expected, provenance, sha, canonical)
                == BuildReceipt(list, info, expected, provenance, sha, canonical)
  {
    OneMatch(list, expected.name, info.id);
    hide Project, Matches, SoleListing;
    var matches := Matches(list, expected.name);
    if |matches| == 1 {
      assert matches == [matches[0]] && Named(matches[0], expected.name);
    }
  }

  /**
    Listing the clusters or describing the regions in another order issues the
    same receipt with the same digest; if every region is readable a refusal gives
    the same reason too.
    */
  lemma ReceiptIgnoresOrder(
      listA: seq<ListedCluster>, listB: seq<ListedCluster>, info: ClusterInfo, regionsB: seq<Region>,
      expected: Expected, provenance: Provenance, sha: string -> string, canonical: Body -> string)
    requires multiset(listA) == multiset(listB)
    requires info.regions.Regions? && multiset(info.regions.items) == multiset(regionsB)
    ensures var a := BuildReceipt(listA, info, expected, provenance, sha, canonical);
            var b := BuildReceipt(listB, info.(regions := Regions(regionsB)), expected, provenance, sha, canonical);
            && (a.Ok? <==> b.Ok?) && (a.Ok? || AllReadable(multiset(regionsB)) ==> a == b)
            && (Project(info.regions) == Project(Regions(regionsB)) ==> a == b)
  {
    ProjectionIgnoresOrder(info.regions.items, regionsB);
    MatchesIgnoreOrder(listA, listB, expected.name);
    var infoB := info.(regions := Regions(regionsB));
    if |Matches(listA, expected.name)| == 1 {
      var id := Matches(listA, expected.name)[0].id;
      hide ReadRegion, Project, Matches;
      assert Issue(id, info, Project(infoB.regions), expected, provenance, sha, canonical)
          == Issue(id, infoB, Project(infoB.regions), expected, provenance, sha, canonical);
    }
  }

  ghost predicate OutcomeIsOrderFree(
      list: seq<ListedCluster>, info: ClusterInfo, expected: Expected, provenance: Provenance,
      sha: string -> string, canonical: Body -> string)
    requires info.regions.Regions?
  {
    forall listB: seq<ListedCluster>, regionsB: seq<Region> ::
      multiset(listB) == multiset(list) && multiset(regionsB) == multiset(info.regions.items) ==>
        BuildReceipt(listB, info.(regions := Regions(regionsB)), expected, provenance, sha, canonical)
        == BuildReceipt(list, info, expected, provenance, sha, canonical)
  }

  /**
    The whole outcome, the reason of a refusal included, is the same for every
    order of clusters and regions exactly when the regions are not reached or all
    unreadable regions have one reason.
    */
  lemma OutcomeDependsOnOrder(
      list: seq<ListedCluster>, info: ClusterInfo, expected: Expected, provenance: Provenance,
      sha: string -> string, canonical: Body -> string)
    requires info.regions.Regions?
    ensures OutcomeIsOrderFree(list, info, expected, provenance, sha, canonical) <==>
              !ReachesRegions(multiset(list), info, expected) || OneReason(multiset(info.regions.items))
  {
    if !ReachesRegions(multiset(list), info, expected) || OneReason(multiset(info.regions.items)) {
      forall listB: seq<ListedCluster>, regionsB: seq<Region> |
        multiset(listB) == multiset(list) && multiset(regionsB) == multiset(info.regions.items)
        ensures BuildReceipt(listB, info.(regions := Regions(regionsB)), expected, provenance, sha, canonical)
             == BuildReceipt(list, info, expected, provenance, sha, canonical)
      {
        SameOutcome(list, listB, info, regionsB, expected, provenance, sha, canonical);
      }
    }
    if OutcomeIsOrderFree(list, info, expected, provenance, sha, canonical)
      && ReachesRegions(multiset(list), info, expected)
    {
      forall regionsB: seq<Region> | multiset(regionsB) == multiset(info.regions.items)
        ensures Project(Regions(regionsB)) == Project(info.regions)
      {
        var infoB := info.(regions := Regions(regionsB));
        ProjectionIgnoresOrder(info.regions.items, regionsB);
        BuildBeforeRegions(list, info, expected, provenance, sha, canonical);
        BuildBeforeRegions(list, infoB, expected, provenance, sha, canonical);
        hide BuildReceipt, Project;
        assert ReachesRegions(multiset(list), infoB, expected);
      }
      ReasonDependsOnOrder(info.regions.items);
    }
  }

  lemma SameOutcome(
      listA: seq<ListedCluster>, listB: seq<ListedCluster>, info: ClusterInfo, regionsB: seq<Region>,
      expected: Expected, provenance: Provenance, sha: string -> string, canonical: Body -> string)
    requires info.regions.Regions?
    requires multiset(listA) == multiset(listB) && multiset(info.regions.items) == multiset(regionsB)
    requires !ReachesRegions(multiset(listA), info, expected) || OneReason(multiset(regionsB))
    ensures BuildReceipt(listB, info.(regions := Regions(regionsB)), expected, provenance, sha, canonical)
         == BuildReceipt(listA, info, expected, provenance, sha, canonical)
  {
    ReceiptIgnoresOrder(listA, listB, info, info.regions.items, expected, provenance, sha, canonical);
    assert info.(regions := Regions(info.regions.items)) == info;
    if OneReason(multiset(regionsB)) {
      OneReasonOneResult(info.regions.items, regionsB);
      ReceiptIgnoresOrder(listA, listB, info, regionsB, expected, provenance, sha, canonical);
    } else {
      BuildBeforeRegions(listB, info, expected, provenance, sha, canonical);
    }
  }

  lemma MatchesIgnoreOrder(listA: seq<ListedCluster>, listB: seq<ListedCluster>, name: string)
    requires multiset(listA) == multiset(listB)
    ensures |Matches(listA, name)| == |Matches(listB, name)|
    ensures |Matches(listA, name)| == 1 ==> Matches(listA, name) == Matches(listB, name)
  {
    var a, b := Matches(listA, name), Matches(listB, name);
    forall c ensures multiset(a)[c] == multiset(b)[c] {
      MatchesAreAll(listA, name, c);
      MatchesAreAll(listB, name, c);
    }
    assert multiset(a) == multiset(b);
    assert |a| == |multiset(a)| && |b| == |multiset(b)|;
    if |a| == 1 {
      assert b[0] in multiset(a);
    }
  }
}
