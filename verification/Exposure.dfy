/**
 Port bindings: the map the runtime is given for a list of service bindings, and the comparison of an observed
 runtime map with such a list.
 */
module Exposure {
  import opened Decimals
  import opened Sets

  datatype Mode = Internal | Loopback | LAN | OtherMode(name: string)

  datatype ServiceBinding = ServiceBinding(
    serviceID: string, transport: string, containerPort: int, mode: Mode, hostAddress: string, hostPort: int)

  /** What the runtime is told about one binding of a port. */
  datatype Endpoint = Endpoint(hostIP: string, hostPort: string)

  /** Decoded JSON, as far as the comparison looks into it. */
  datatype Json = Text(s: string) | Items(items: seq<Json>) | Fields(fields: map<string, Json>) | OtherJson(id: nat)

  function Key(b: ServiceBinding): string { Itoa(b.containerPort) + "/" + b.transport }
  function EndpointOf(b: ServiceBinding): Endpoint { Endpoint(b.hostAddress, Itoa(b.hostPort)) }

  /** The bindings published under a key, in order. */
  function Under(bs: seq<ServiceBinding>, key: string): seq<ServiceBinding> {
    if bs == [] then []
    else
      var last := bs[|bs| - 1];
      Under(bs[..|bs| - 1], key) + if last.mode != Internal && Key(last) == key then [last] else []
  }

  ghost function Keys(bs: seq<ServiceBinding>): set<string> {
    set i | 0 <= i < |bs| && bs[i].mode != Internal :: Key(bs[i])
  }

  function Rendered(bs: seq<ServiceBinding>): seq<Endpoint> {
    seq(|bs|, i requires 0 <= i < |bs| => EndpointOf(bs[i]))
  }

  ghost function Endpoints(bs: seq<ServiceBinding>): multiset<Endpoint> { multiset(Rendered(bs)) }

  /** An observed item that names an address and a port and nothing else. */
  predicate Readable(item: Json) {
    && item.Fields? && |item.fields| == 2 && "HostIp" in item.fields && "HostPort" in item.fields
    && item.fields["HostIp"].Text? && item.fields["HostPort"].Text?
  }

  function Parsed(item: Json): Endpoint
    requires Readable(item)
  {
    Endpoint(item.fields["HostIp"].s, item.fields["HostPort"].s)
  }

  ghost predicate AllReadable(items: seq<Json>) { forall i :: 0 <= i < |items| ==> Readable(items[i]) }

  ghost function AllParsed(items: seq<Json>): multiset<Endpoint>
    requires AllReadable(items)
  {
    multiset(seq(|items|, i requires 0 <= i < |items| => Parsed(items[i])))
  }

  /** The observed value of one key holds exactly these bindings. */
  ghost predicate Holds(raw: Json, bs: seq<ServiceBinding>) {
    raw.Items? && AllReadable(raw.items) && AllParsed(raw.items) == Endpoints(bs)
  }

  ghost predicate ExactSet(expected: seq<ServiceBinding>, observed: map<string, Json>) {
    observed.Keys == Keys(expected) && forall key :: key in observed ==> Holds(observed[key], Under(expected, key))
  }

  // ----- the comparison ------------------------------------------------------------------------------

  lemma UnderExtends(bs: seq<ServiceBinding>, i: nat, key: string)
    requires i < |bs|
    ensures Under(bs[..i + 1], key) == Under(bs[..i], key) + if bs[i].mode != Internal && Key(bs[i]) == key then [bs[i]] else []
  {
    assert bs[..i + 1][..i] == bs[..i];
  }

  lemma KeysExtends(bs: seq<ServiceBinding>)
    requires bs != []
    ensures
      var last := bs[|bs| - 1];
      Keys(bs) == Keys(bs[..|bs| - 1]) + if last.mode != Internal then {Key(last)} else {}
  {
    hide Key;
    var n := |bs| - 1;
    assert bs == bs[..n] + [bs[n]];
  }

  /** A key has bindings exactly when it is one of the keys. */
  lemma {:induction false} UnderEmpty(bs: seq<ServiceBinding>, key: string)
    ensures Under(bs, key) == [] <==> key !in Keys(bs)
  {
    if bs != [] {
      UnderEmpty(bs[..|bs| - 1], key);
      KeysExtends(bs);
    }
  }

  lemma NothingUnder(bs: seq<ServiceBinding>, key: string)
    ensures Under(bs[..0], key) == []
  {
  }

  /** Groups the published bindings by key. */
  method Group(expected: seq<ServiceBinding>) returns (want: map<string, seq<ServiceBinding>>)
    ensures want.Keys == Keys(expected)
    ensures forall key :: key in want ==> want[key] == Under(expected, key)
  {
    hide Under, Key, Keys;
    want := map[];
    forall key ensures Under(expected[..0], key) == [] { NothingUnder(expected, key); }
    for i := 0 to |expected|
      invariant forall key :: (if key in want then want[key] else []) == Under(expected[..i], key)
      invariant forall key :: key in want ==> want[key] != []
    {
      var b := expected[i];
      forall key ensures Under(expected[..i + 1], key) == Under(expected[..i], key) + if b.mode != Internal && Key(b) == key then [b] else [] {
        UnderExtends(expected, i, key);
      }
      if b.mode != Internal {
        var key := Key(b);
        want := want[key := (if key in want then want[key] else []) + [b]];
      }
    }
    assert expected[..|expected|] == expected;
    forall key ensures key in want <==> key in Keys(expected) { UnderEmpty(expected, key); }
  }

  /** The endpoints of the bindings marked so far. */
  ghost function Marked(bs: seq<ServiceBinding>, marks: seq<bool>): multiset<Endpoint>
    requires |marks| == |bs|
  {
    if bs == [] then multiset{}
    else
      var n := |bs| - 1;
      Marked(bs[..n], marks[..n]) + if marks[n] then multiset{EndpointOf(bs[n])} else multiset{}
  }

  lemma {:induction false} MarkOne(bs: seq<ServiceBinding>, marks: seq<bool>, i: nat)
    requires |marks| == |bs| && i < |bs| && !marks[i]
    ensures Marked(bs, marks[i := true]) == Marked(bs, marks) + multiset{EndpointOf(bs[i])}
  {
    var n := |bs| - 1;
    if i == n {
      assert marks[i := true][..n] == marks[..n];
    } else {
      MarkOne(bs[..n], marks[..n], i);
      assert marks[i := true][..n] == marks[..n][i := true];
    }
  }

  lemma EndpointsExtends(bs: seq<ServiceBinding>)
    requires bs != []
    ensures Endpoints(bs) == Endpoints(bs[..|bs| - 1]) + multiset{EndpointOf(bs[|bs| - 1])}
  {
    hide EndpointOf;
    var n := |bs| - 1;
    assert Rendered(bs) == Rendered(bs[..n]) + [EndpointOf(bs[n])];
  }

  lemma ParsedExtends(items: seq<Json>)
    requires items != [] && AllReadable(items)
    ensures AllReadable(items[..|items| - 1])
    ensures AllParsed(items) == AllParsed(items[..|items| - 1]) + multiset{Parsed(items[|items| - 1])}
  {
    var n := |items| - 1;
    var all := seq(|items|, i requires 0 <= i < |items| => Parsed(items[i]));
    assert all == seq(n, i requires 0 <= i < n => Parsed(items[..n][i])) + [Parsed(items[n])];
  }

  /** Every binding equal to e is marked, so the marked ones have as many e as there are. */
  lemma {:induction false} Exhausted(bs: seq<ServiceBinding>, marks: seq<bool>, e: Endpoint)
    requires |marks| == |bs| && forall i :: 0 <= i < |bs| && EndpointOf(bs[i]) == e ==> marks[i]
    ensures Marked(bs, marks)[e] == Endpoints(bs)[e]
  {
    if bs != [] {
      var n := |bs| - 1;
      Exhausted(bs[..n], marks[..n], e);
      EndpointsExtends(bs);
    }
  }

  lemma {:induction false} MarkedSize(bs: seq<ServiceBinding>, marks: seq<bool>)
    requires |marks| == |bs|
    ensures Marked(bs, marks) <= Endpoints(bs)
  {
    if bs != [] {
      var n := |bs| - 1;
      MarkedSize(bs[..n], marks[..n]);
      EndpointsExtends(bs);
    }
  }

  lemma {:induction false} NoneMarked(bs: seq<ServiceBinding>, marks: seq<bool>)
    requires |marks| == |bs| && forall i :: 0 <= i < |bs| ==> !marks[i]
    ensures Marked(bs, marks) == multiset{}
  {
    if bs != [] { NoneMarked(bs[..|bs| - 1], marks[..|bs| - 1]); }
  }

  lemma {:induction false} SameSize(m: multiset<Endpoint>, n: multiset<Endpoint>)
    requires m <= n && |m| == |n|
    ensures m == n
  {
    assert n == m + (n - m);
    assert |n - m| == 0;
  }

  lemma PrefixParsed(items: seq<Json>, k: nat)
    requires k <= |items| && AllReadable(items)
    ensures AllReadable(items[..k]) && AllParsed(items[..k]) <= AllParsed(items)
    decreases |items|
  {
    if k < |items| {
      ParsedExtends(items);
      assert items[..|items| - 1][..k] == items[..k];
      PrefixParsed(items[..|items| - 1], k);
    } else {
      assert items[..k] == items;
    }
  }

  lemma Sizes(items: seq<Json>, bs: seq<ServiceBinding>)
    requires AllReadable(items)
    ensures |AllParsed(items)| == |items| && |Endpoints(bs)| == |bs|
  {
  }

  lemma ReadableExtends(items: seq<Json>, k: nat)
    requires k < |items| && AllReadable(items[..k])
    ensures AllReadable(items[..k + 1]) <==> Readable(items[k])
    ensures AllReadable(items) ==> Readable(items[k])
    ensures Readable(items[k]) ==> AllParsed(items[..k + 1]) == AllParsed(items[..k]) + multiset{Parsed(items[k])}
  {
    assert items[..k + 1] == items[..k] + [items[k]];
    if Readable(items[k]) {
      ParsedExtends(items[..k + 1]);
      assert items[..k + 1][..k] == items[..k];
    } else {
      assert items[..k + 1][k] == items[k];
    }
  }

  /** Marks the first unmarked binding with this endpoint; without one, all of them are already marked. */
  method MatchOne(e: Endpoint, bs: seq<ServiceBinding>, matched: array<bool>) returns (found: bool)
    requires matched.Length == |bs|
    modifies matched
    ensures found ==> Marked(bs, matched[..]) == old(Marked(bs, matched[..])) + multiset{e}
    ensures !found ==> matched[..] == old(matched[..]) && Marked(bs, matched[..])[e] == Endpoints(bs)[e]
  {
    hide Marked, Endpoints, EndpointOf;
    for i := 0 to |bs|
      invariant matched[..] == old(matched[..])
      invariant forall j :: 0 <= j < i && EndpointOf(bs[j]) == e ==> matched[..][j]
    {
      if !matched[i] && e == EndpointOf(bs[i]) {
        MarkOne(bs, matched[..], i);
        matched[i] := true;
        assert matched[..] == old(matched[..])[i := true];
        return true;
      }
    }
    Exhausted(bs, matched[..], e);
    found := false;
  }

  /** After k items all marks are used up for e, and one more e is observed: the multisets differ. */
  lemma OneTooMany(items: seq<Json>, k: nat, bs: seq<ServiceBinding>)
    requires k < |items| && AllReadable(items)
    requires AllReadable(items[..k]) && AllParsed(items[..k])[Parsed(items[k])] == Endpoints(bs)[Parsed(items[k])]
    ensures AllParsed(items) != Endpoints(bs)
  {
    ReadableExtends(items, k);
    PrefixParsed(items, k + 1);
    assert AllParsed(items)[Parsed(items[k])] > Endpoints(bs)[Parsed(items[k])];
  }

  /** The items of one key: each is matched with a binding not matched before. */
  method MatchItems(raw: Json, bs: seq<ServiceBinding>) returns (ok: bool)
    ensures ok <==> Holds(raw, bs)
  {
    hide Marked, Endpoints, Readable, AllReadable, AllParsed, Parsed;
    if !raw.Items? { return false; }
    var items := raw.items;
    if |items| != |bs| {
      if AllReadable(items) { Sizes(items, bs); }
      return false;
    }
    var matched := new bool[|bs|](_ => false);
    NoneMarked(bs, matched[..]);
    NothingParsed(items);
    for k := 0 to |items|
      invariant AllReadable(items[..k])
      invariant AllParsed(items[..k]) == Marked(bs, matched[..])
    {
      ReadableExtends(items, k);
      if !Readable(items[k]) { return false; }
      var found := MatchOne(Parsed(items[k]), bs, matched);
      if !found {
        if AllReadable(items) { OneTooMany(items, k, bs); }
        return false;
      }
    }
    assert items[..|items|] == items;
    MarkedSize(bs, matched[..]);
    Sizes(items, bs);
    SameSize(AllParsed(items), Endpoints(bs));
    ok := true;
  }

  lemma NothingParsed(items: seq<Json>)
    ensures AllReadable(items[..0]) && AllParsed(items[..0]) == multiset{}
  {
  }

  /** The observed map is exactly what the expected bindings publish. */
  method ObservedBindingsExactSet(expected: seq<ServiceBinding>, observed: map<string, Json>) returns (ok: bool)
    ensures ok <==> ExactSet(expected, observed)
  {
    hide Holds, Under;
    var want := Group(expected);
    if |want| != |observed| {
      assert |want.Keys| == |want| && |observed.Keys| == |observed|;
      return false;
    }
    var todo := want.Keys;
    while todo != {}
      invariant todo <= want.Keys
      invariant forall key :: key in want && key !in todo ==> key in observed && Holds(observed[key], Under(expected, key))
      decreases |todo|
    {
      var key :| key in todo;
      if key !in observed { return false; }
      var same := MatchItems(observed[key], want[key]);
      if !same { return false; }
      todo := todo - {key};
    }
    assert want.Keys <= observed.Keys && |want.Keys| == |observed.Keys|;
    SubsetOfSameSize(want.Keys, observed.Keys);
    ok := true;
  }

  // ----- what the runtime is given ---------------------------------------------------------------------

  lemma RenderedExtends(bs: seq<ServiceBinding>, i: nat, key: string)
    requires i < |bs|
    ensures Rendered(Under(bs[..i + 1], key))
         == Rendered(Under(bs[..i], key)) + if bs[i].mode != Internal && Key(bs[i]) == key then [EndpointOf(bs[i])] else []
  {
    UnderExtends(bs, i, key);
  }

  /** The runtime's port-binding map for a list of bindings. */
  method RuntimePortBindings(bs: seq<ServiceBinding>) returns (out: map<string, seq<Endpoint>>)
    ensures out.Keys == Keys(bs)
    ensures forall key :: key in out ==> out[key] == Rendered(Under(bs, key))
  {
    hide Rendered, Under, Key, EndpointOf;
    out := map[];
    assert forall key :: Rendered(Under(bs[..0], key)) == [] by { forall key { NothingRendered(bs, key); } }
    for i := 0 to |bs|
      invariant forall key :: (if key in out then out[key] else []) == Rendered(Under(bs[..i], key))
      invariant forall key :: key in out ==> out[key] != []
    {
      var b := bs[i];
      forall key ensures Rendered(Under(bs[..i + 1], key)) == Rendered(Under(bs[..i], key))
                       + if b.mode != Internal && Key(b) == key then [EndpointOf(b)] else []
      {
        RenderedExtends(bs, i, key);
      }
      if b.mode != Internal {
        var key := Key(b);
        out := out[key := (if key in out then out[key] else []) + [EndpointOf(b)]];
      }
    }
    assert bs[..|bs|] == bs;
    forall key ensures key in out <==> key in Keys(bs) {
      UnderEmpty(bs, key);
      NothingOnlyFromNothing(Under(bs, key));
    }
  }

  lemma NothingRendered(bs: seq<ServiceBinding>, key: string)
    ensures Rendered(Under(bs[..0], key)) == []
  {
  }

  lemma NothingOnlyFromNothing(bs: seq<ServiceBinding>)
    ensures Rendered(bs) == [] <==> bs == []
  {
    assert |Rendered(bs)| == |bs|;
  }

  /** The runtime's report of what it was given. */
  function ReportItem(e: Endpoint): Json { Fields(map["HostIp" := Text(e.hostIP), "HostPort" := Text(e.hostPort)]) }
  function ReportItems(es: seq<Endpoint>): Json { Items(seq(|es|, i requires 0 <= i < |es| => ReportItem(es[i]))) }
  ghost function Report(bs: seq<ServiceBinding>): map<string, Json> {
    map key | key in Keys(bs) :: ReportItems(Rendered(Under(bs, key)))
  }

  /** An observed item is readable exactly when it is the report of an endpoint, so with no field more or less. */
  lemma ReadableExactly(item: Json)
    ensures Readable(item) <==> exists e :: item == ReportItem(e)
    ensures forall e :: item == ReportItem(e) ==> Parsed(item) == e
  {
    if Readable(item) {
      var m, e := item.fields, Parsed(item);
      var two := {"HostIp", "HostPort"};
      SubsetOfSameSize(two, m.Keys);
      assert m == ReportItem(e).fields;
    }
    forall e | item == ReportItem(e) ensures Readable(item) && Parsed(item) == e {
      assert item.fields.Keys == {"HostIp", "HostPort"};
    }
  }

  /** One published socket, with its numbers. */
  datatype Socket = Socket(containerPort: int, transport: string, address: string, hostPort: int)

  function SocketOf(b: ServiceBinding): Socket { Socket(b.containerPort, b.transport, b.hostAddress, b.hostPort) }

  /** All sockets a list publishes. */
  ghost function Published(bs: seq<ServiceBinding>): multiset<Socket> {
    if bs == [] then multiset{}
    else
      var last := bs[|bs| - 1];
      Published(bs[..|bs| - 1]) + if last.mode != Internal then multiset{SocketOf(last)} else multiset{}
  }

  function KeyOf(s: Socket): string { Itoa(s.containerPort) + "/" + s.transport }
  function EndpointFor(s: Socket): Endpoint { Endpoint(s.address, Itoa(s.hostPort)) }

  /** A port and a transport can be read back from their key. */
  lemma KeyInjective(m: int, t: string, n: int, u: string)
    requires Itoa(m) + "/" + t == Itoa(n) + "/" + u
    ensures m == n && t == u
  {
    var k, l := Itoa(m) + "/" + t, Itoa(n) + "/" + u;
    var i, j := |Itoa(m)|, |Itoa(n)|;
    assert k[i] == '/' && l[j] == '/';
    if i < j { ItoaHasNoSlash(n, i); }
    if j < i { ItoaHasNoSlash(m, j); }
    assert Itoa(m) == k[..i] == l[..j] == Itoa(n);
    assert t == k[i + 1..] == l[j + 1..] == u;
    ItoaInjective(m, n);
  }

  lemma SameSocket(b: ServiceBinding, s: Socket)
    ensures Key(b) == KeyOf(s) && EndpointOf(b) == EndpointFor(s) <==> SocketOf(b) == s
  {
    if Key(b) == KeyOf(s) && EndpointOf(b) == EndpointFor(s) {
      KeyInjective(b.containerPort, b.transport, s.containerPort, s.transport);
      ItoaInjective(b.hostPort, s.hostPort);
    }
  }

  /** A socket is published as often as its endpoint stands under its key. */
  lemma {:induction false} PublishedUnder(bs: seq<ServiceBinding>, s: Socket)
    ensures Published(bs)[s] == Endpoints(Under(bs, KeyOf(s)))[EndpointFor(s)]
  {
    hide Endpoints, Key, EndpointOf, KeyOf, EndpointFor, SocketOf;
    if bs == [] {
      NoEndpoints();
    } else {
      var n, last := |bs| - 1, bs[|bs| - 1];
      PublishedUnder(bs[..n], s);
      SameSocket(last, s);
      var key := KeyOf(s);
      if last.mode != Internal && Key(last) == key {
        assert Under(bs, key)[..|Under(bs, key)| - 1] == Under(bs[..n], key);
        EndpointsExtends(Under(bs, key));
      } else {
        assert Under(bs, key) == Under(bs[..n], key);
      }
    }
  }

  lemma NoEndpoints()
    ensures Endpoints([]) == multiset{}
  {
  }

  lemma {:induction false} UnderIsPublished(bs: seq<ServiceBinding>, key: string, i: nat)
    requires i < |Under(bs, key)|
    ensures Under(bs, key)[i].mode != Internal && Key(Under(bs, key)[i]) == key
  {
    var n := |bs| - 1;
    if i < |Under(bs[..n], key)| { UnderIsPublished(bs[..n], key, i); }
  }

  /** Lists that publish the same sockets put the same endpoints under every key. */
  lemma SameUnder(a: seq<ServiceBinding>, b: seq<ServiceBinding>, key: string, e: Endpoint)
    requires Published(a) == Published(b)
    ensures Endpoints(Under(a, key))[e] <= Endpoints(Under(b, key))[e]
  {
    var us := Under(a, key);
    if e in Endpoints(us) {
      var all := Rendered(us);
      assert e in all;
      var i :| 0 <= i < |all| && all[i] == e;
      UnderIsPublished(a, key, i);
      var s := SocketOf(us[i]);
      PublishedUnder(a, s);
      PublishedUnder(b, s);
    }
  }

  lemma ReportHolds(us: seq<ServiceBinding>, vs: seq<ServiceBinding>)
    ensures Holds(ReportItems(Rendered(us)), vs) <==> Endpoints(us) == Endpoints(vs)
  {
    var items := ReportItems(Rendered(us)).items;
    forall i | 0 <= i < |items| ensures Readable(items[i]) && Parsed(items[i]) == EndpointOf(us[i]) {
      assert items[i] == ReportItem(EndpointOf(us[i]));
    }
    assert seq(|items|, i requires 0 <= i < |items| => Parsed(items[i])) == Rendered(us);
  }

  ghost predicate SameEndpoints(a: seq<ServiceBinding>, b: seq<ServiceBinding>, key: string) {
    Endpoints(Under(a, key)) == Endpoints(Under(b, key))
  }

  lemma ExactlyTheSameUnder(expected: seq<ServiceBinding>, other: seq<ServiceBinding>)
    ensures ExactSet(expected, Report(other)) <==>
            forall key :: SameEndpoints(expected, other, key)
  {
    hide Under, Keys, Holds, Endpoints;
    forall key
      ensures Holds(ReportItems(Rendered(Under(other, key))), Under(expected, key))
         <==> SameEndpoints(expected, other, key)
      ensures key in Keys(expected) <==> Endpoints(Under(expected, key)) != multiset{}
      ensures key in Keys(other) <==> Endpoints(Under(other, key)) != multiset{}
    {
      ReportHolds(Under(other, key), Under(expected, key));
      UnderEmpty(expected, key);
      UnderEmpty(other, key);
      SomeEndpoint(Under(expected, key));
      SomeEndpoint(Under(other, key));
    }
    var report := Report(other);
    assert report.Keys == Keys(other);
    if ExactSet(expected, report) {
      forall key ensures SameEndpoints(expected, other, key) {
        if key in report { assert Holds(report[key], Under(expected, key)); }
      }
    }
    if forall key :: SameEndpoints(expected, other, key) {
      forall key ensures key in report.Keys <==> key in Keys(expected) {
        assert SameEndpoints(expected, other, key);
      }
      assert report.Keys == Keys(expected);
    }
  }

  lemma SomeEndpoint(bs: seq<ServiceBinding>)
    ensures Endpoints(bs) == multiset{} <==> bs == []
  {
    assert |Endpoints(bs)| == |bs|;
  }

  /**
   The comparison accepts what the runtime was given for a list of bindings exactly when that list publishes
   the same sockets as the expected one: nothing added, missing or changed, in any order.
   */
  lemma AcceptsExactlyTheSame(expected: seq<ServiceBinding>, other: seq<ServiceBinding>)
    ensures ExactSet(expected, Report(other)) <==> Published(expected) == Published(other)
  {
    hide Under, Endpoints, Published, ExactSet;
    ExactlyTheSameUnder(expected, other);
    if Published(expected) == Published(other) {
      forall key ensures SameEndpoints(expected, other, key) {
        forall e: Endpoint ensures Endpoints(Under(expected, key))[e] == Endpoints(Under(other, key))[e] {
          SameUnder(expected, other, key, e);
          SameUnder(other, expected, key, e);
        }
      }
    }
    if ExactSet(expected, Report(other)) {
      forall s: Socket ensures Published(expected)[s] == Published(other)[s] {
        PublishedUnder(expected, s);
        PublishedUnder(other, s);
        assert SameEndpoints(expected, other, KeyOf(s));
      }
    }
  }
}
