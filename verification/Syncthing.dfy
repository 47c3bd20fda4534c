/**
 The structured configuration policy for Syncthing: a rewriter over the XML token stream that forces the
 managed options to their policy values, and the reader that verifies the result.
 */
module Syncthing {
  import opened Options

  /** The managed options of the TCP-only policy. */
  datatype Setting =
    | ListenAddress | GlobalAnnounceEnabled | LocalAnnounceEnabled | RelaysEnabled | NatEnabled | StartBrowser
    | UrAccepted | AutoUpgradeIntervalH | CrashReportingEnabled

  /** An element's local name, sorted by what the policy does with it. */
  datatype Tag = OptionsTag | Managed(setting: Setting) | OtherTag(name: string)

  /** attributes stands for the element's attribute list; Misc for comments, directives and instructions. */
  datatype Token = Start(tag: Tag, attributes: nat) | End(tag: Tag) | Text(text: string) | Misc(id: nat)

  function PolicyValue(s: Setting): string {
    match s
    case ListenAddress => "tcp://0.0.0.0:22000"
    case UrAccepted => "-1"
    case AutoUpgradeIntervalH => "0"
    case _ => "false"
  }

  /** White space in the Unicode sense, which trimming removes. */
  predicate Space(c: char) {
    || '\t' <= c <= '\r' || c == ' ' || c == '\U{0085}' || c == '\U{00A0}' || c == '\U{1680}'
    || '\U{2000}' <= c <= '\U{200A}' || c == '\U{2028}' || c == '\U{2029}' || c == '\U{202F}' || c == '\U{205F}'
    || c == '\U{3000}'
  }

  function TrimLeft(s: string): string {
    if s != "" && Space(s[0]) then TrimLeft(s[1..]) else s
  }

  function TrimRight(s: string): string {
    if s != "" && Space(s[|s| - 1]) then TrimRight(s[..|s| - 1]) else s
  }

  function Trim(s: string): string { TrimRight(TrimLeft(s)) }

  lemma PolicyValuesAreTrimmed(s: Setting)
    ensures Trim(PolicyValue(s)) == PolicyValue(s)
  {
  }

  // ----- elements ------------------------------------------------------------------------------------

  /** What follows the end tag that closes the element whose content begins here, at the given depth. */
  function Skip(ts: seq<Token>, depth: nat): (rest: Option<seq<Token>>)
    requires depth >= 1
    ensures rest.Some? ==> |rest.value| < |ts|
  {
    if ts == [] then None
    else match ts[0]
      case Start(_, _) => Skip(ts[1..], depth + 1)
      case End(_) => if depth == 1 then Some(ts[1..]) else Skip(ts[1..], depth - 1)
      case _ => Skip(ts[1..], depth)
  }

  /** The character data directly inside the element whose content begins here. */
  function Content(ts: seq<Token>, depth: nat): string
    requires depth >= 1
  {
    if ts == [] then ""
    else match ts[0]
      case Start(_, _) => Content(ts[1..], depth + 1)
      case End(_) => if depth == 1 then "" else Content(ts[1..], depth - 1)
      case Text(t) => (if depth == 1 then t else "") + Content(ts[1..], depth)
      case Misc(_) => Content(ts[1..], depth)
  }

  // ----- rewriting -------------------------------------------------------------------------------------

  /** Output, number of options elements, and how often each managed option was met. */
  datatype Scan = Scan(output: seq<Token>, optionsCount: nat, seen: multiset<Setting>)

  function Before(head: seq<Token>, optionsCount: nat, seen: multiset<Setting>, rest: Option<Scan>): Option<Scan> {
    match rest
    case None => None
    case Some(s) => Some(Scan(head + s.output, optionsCount + s.optionsCount, seen + s.seen))
  }

  predicate IsManaged(inOptions: bool, tag: Tag) { inOptions && tag.Managed? }

  /** Whether what follows a token outside the managed elements is inside options. */
  predicate Inside(t: Token, inOptions: bool) {
    match t
    case Start(tag, _) => inOptions || tag.OptionsTag?
    case End(tag) => inOptions && !tag.OptionsTag?
    case _ => inOptions
  }

  function Opens(t: Token): nat { if t.Start? && t.tag.OptionsTag? then 1 else 0 }

  function Forced(tag: Tag, attributes: nat): seq<Token>
    requires tag.Managed?
  {
    [Start(tag, attributes), Text(PolicyValue(tag.setting)), End(tag)]
  }

  /** The rewriting of a stream, given whether it begins inside options and after a first listenAddress. */
  function Rewrite(ts: seq<Token>, inOptions: bool, listening: bool): Option<Scan>
    decreases |ts|
  {
    if ts == [] then Some(Scan([], 0, multiset{}))
    else if ts[0].Start? && IsManaged(inOptions, ts[0].tag) then
      var o := ts[0].tag.setting;
      var rest := Skip(ts[1..], 1);
      if rest.None? then None
      else if o.ListenAddress? && listening then Before([], 0, multiset{o}, Rewrite(rest.value, true, true))
      else
        Before(Forced(ts[0].tag, ts[0].attributes), 0, multiset{o}, Rewrite(rest.value, true, listening || o.ListenAddress?))
    else if inOptions && Opens(ts[0]) > 0 then None
    else Before([ts[0]], Opens(ts[0]), multiset{}, Rewrite(ts[1..], Inside(ts[0], inOptions), listening))
  }

  /** The rewritten stream, if it has exactly one options element and every managed option at least once. */
  ghost predicate Accepted(ts: seq<Token>, s: Scan) {
    Rewrite(ts, false, false) == Some(s) && s.optionsCount == 1 && forall o: Setting :: o in s.seen
  }

  // ----- reading ----------------------------------------------------------------------------------------

  datatype Reading = Reading(values: map<Setting, string>, counts: multiset<Setting>, optionsCount: nat)

  function ReadBefore(values: map<Setting, string>, optionsCount: nat, counts: multiset<Setting>, rest: Option<Reading>): Option<Reading> {
    match rest
    case None => None
    case Some(r) => Some(Reading(values + r.values, counts + r.counts, optionsCount + r.optionsCount))
  }

  function Read(ts: seq<Token>, inOptions: bool): Option<Reading>
    decreases |ts|
  {
    if ts == [] then Some(Reading(map[], multiset{}, 0))
    else if ts[0].Start? && IsManaged(inOptions, ts[0].tag) then
      var o, rest := ts[0].tag.setting, Skip(ts[1..], 1);
      if rest.None? then None
      else ReadBefore(map[o := Trim(Content(ts[1..], 1))], 0, multiset{o}, Read(rest.value, true))
    else ReadBefore(map[], Opens(ts[0]), multiset{}, Read(ts[1..], Inside(ts[0], inOptions)))
  }

  /** The policy check on a stream: one options element, every managed option once and at its value. */
  ghost predicate Compliant(ts: seq<Token>) {
    var r := Read(ts, false);
    && r.Some? && r.value.optionsCount == 1
    && forall o: Setting :: Expressed(r.value, o)
  }

  predicate Expressed(r: Reading, o: Setting) {
    r.counts[o] == 1 && o in r.values && r.values[o] == PolicyValue(o)
  }

  /** The stream without its managed option elements. */
  function Outside(ts: seq<Token>, inOptions: bool): seq<Token>
    decreases |ts|
  {
    if ts == [] then []
    else if ts[0].Start? && IsManaged(inOptions, ts[0].tag) then
      var rest := Skip(ts[1..], 1);
      if rest.None? then [] else Outside(rest.value, true)
    else [ts[0]] + Outside(ts[1..], Inside(ts[0], inOptions))
  }

  // ----- what rewriting does -------------------------------------------------------------------------------

  lemma ForcedElement(tag: Tag, attributes: nat, rest: seq<Token>)
    requires tag.Managed?
    ensures
      var ts := Forced(tag, attributes) + rest;
      && ts != [] && ts[0] == Start(tag, attributes)
      && Skip(ts[1..], 1) == Some(rest) && Content(ts[1..], 1) == PolicyValue(tag.setting)
  {
    var ts := Forced(tag, attributes) + rest;
    assert ts[1..][0] == Text(PolicyValue(tag.setting));
    assert ts[1..][1..] == [End(tag)] + rest;
    assert ts[1..][1..][1..] == rest;
    assert Content(ts[1..][1..], 1) == "";
  }

  lemma ReadOfForced(tag: Tag, attributes: nat, rest: seq<Token>)
    requires tag.Managed?
    ensures Read(Forced(tag, attributes) + rest, true)
         == ReadBefore(map[tag.setting := PolicyValue(tag.setting)], 0, multiset{tag.setting}, Read(rest, true))
  {
    hide Skip, Content, Forced, PolicyValue, Trim;
    ForcedElement(tag, attributes, rest);
    PolicyValuesAreTrimmed(tag.setting);
    var ts := Forced(tag, attributes) + rest;
    assert IsManaged(true, ts[0].tag);
  }

  lemma RewriteOfForced(tag: Tag, attributes: nat, rest: seq<Token>, listening: bool)
    requires tag.Managed? && !(tag.setting.ListenAddress? && listening)
    ensures Rewrite(Forced(tag, attributes) + rest, true, listening)
         == Before(Forced(tag, attributes), 0, multiset{tag.setting},
                   Rewrite(rest, true, listening || tag.setting.ListenAddress?))
  {
    hide Skip, Content, Forced, PolicyValue;
    ForcedElement(tag, attributes, rest);
    var ts := Forced(tag, attributes) + rest;
    assert IsManaged(true, ts[0].tag);
  }

  /** How often the rewritten stream has an option. */
  function KeptCount(seen: multiset<Setting>, listening: bool, o: Setting): nat {
    if o.ListenAddress? then (if listening || seen[o] == 0 then 0 else 1) else seen[o]
  }

  ghost predicate ReadsAs(r: Option<Reading>, s: Scan, listening: bool) {
    && r.Some? && r.value.optionsCount == s.optionsCount
    && (forall o: Setting :: r.value.counts[o] == KeptCount(s.seen, listening, o))
    && (forall o: Setting :: o in r.value.values <==> r.value.counts[o] > 0)
    && (forall o: Setting :: o in r.value.values ==> r.value.values[o] == PolicyValue(o))
  }

  /** A token outside the managed elements adds nothing to what is read. */
  lemma ReadsPlain(r: Option<Reading>, s: Scan, head: seq<Token>, n: nat, listening: bool)
    requires ReadsAs(r, s, listening)
    ensures ReadsAs(ReadBefore(map[], n, multiset{}, r), Before(head, n, multiset{}, Some(s)).value, listening)
  {
    assert map[] + r.value.values == r.value.values;
  }

  lemma KeptForced(seen: multiset<Setting>, o: Setting, listening: bool, p: Setting)
    requires !(o.ListenAddress? && listening)
    ensures KeptCount(multiset{o} + seen, listening, p)
         == KeptCount(seen, listening || o.ListenAddress?, p) + if p == o then 1 else 0
  {
  }

  /** A forced element is read at its policy value. */
  lemma ReadsForced(r: Option<Reading>, s: Scan, head: seq<Token>, o: Setting, listening: bool)
    requires !(o.ListenAddress? && listening)
    requires ReadsAs(r, s, listening || o.ListenAddress?)
    ensures ReadsAs(ReadBefore(map[o := PolicyValue(o)], 0, multiset{o}, r), Before(head, 0, multiset{o}, Some(s)).value, listening)
  {
    hide PolicyValue, KeptCount;
    var before := listening || o.ListenAddress?;
    var u, v := ReadBefore(map[o := PolicyValue(o)], 0, multiset{o}, r).value, Before(head, 0, multiset{o}, Some(s)).value;
    forall p: Setting ensures u.counts[p] == KeptCount(v.seen, listening, p) {
      assert r.value.counts[p] == KeptCount(s.seen, before, p);
      KeptForced(s.seen, o, listening, p);
    }
    forall p: Setting ensures p in u.values <==> u.counts[p] > 0 {
      assert p in r.value.values <==> r.value.counts[p] > 0;
    }
  }

  /** A repeated listenAddress leaves no trace. */
  lemma ReadsDropped(r: Option<Reading>, s: Scan)
    requires ReadsAs(r, s, true)
    ensures ReadsAs(r, Before([], 0, multiset{ListenAddress}, Some(s)).value, true)
  {
  }

  lemma ReadNothing(listening: bool)
    ensures ReadsAs(Read([], true), Scan([], 0, multiset{}), listening)
    ensures ReadsAs(Read([], false), Scan([], 0, multiset{}), listening)
  {
  }

  /** Reading the output back gives every option its policy value, with listenAddress at most once. */
  lemma {:induction false} OutputReadsAsPolicy(ts: seq<Token>, inOptions: bool, listening: bool)
    requires Rewrite(ts, inOptions, listening).Some?
    ensures ReadsAs(Read(Rewrite(ts, inOptions, listening).value.output, inOptions),
                    Rewrite(ts, inOptions, listening).value, listening)
    decreases |ts|
  {
    hide ReadsAs, Skip, Content, Forced, PolicyValue, Trim;
    if ts == [] { ReadNothing(listening); return; }
    var s := Rewrite(ts, inOptions, listening).value;
    if ts[0].Start? && IsManaged(inOptions, ts[0].tag) {
      var tag, rest := ts[0].tag, Skip(ts[1..], 1).value;
      var after := listening || tag.setting.ListenAddress?;
      OutputReadsAsPolicy(rest, true, after);
      var more := Rewrite(rest, true, after).value;
      if tag.setting.ListenAddress? && listening {
        ReadsDropped(Read(more.output, true), more);
        assert s.output == more.output;
      } else {
        ReadsForced(Read(more.output, true), more, Forced(tag, ts[0].attributes), tag.setting, listening);
        ReadOfForced(tag, ts[0].attributes, more.output);
      }
    } else {
      var inside := Inside(ts[0], inOptions);
      OutputReadsAsPolicy(ts[1..], inside, listening);
      var more := Rewrite(ts[1..], inside, listening).value;
      assert s.output[0] == ts[0] && s.output[1..] == more.output;
      ReadsPlain(Read(more.output, inside), more, [ts[0]], Opens(ts[0]), listening);
    }
  }

  /** Rewriting the output again reproduces it, and meets each option as often as the output holds it. */
  ghost predicate Reproduces(again: Option<Scan>, s: Scan, listening: bool) {
    && again.Some? && again.value.output == s.output && again.value.optionsCount == s.optionsCount
    && forall o: Setting :: again.value.seen[o] == KeptCount(s.seen, listening, o)
  }

  lemma ReproducesStep(again: Option<Scan>, s: Scan, head: seq<Token>, n: nat, met: multiset<Setting>, listening: bool)
    requires met == multiset{} || exists o: Setting :: met == multiset{o}
    requires listening ==> ListenAddress !in met
    requires Reproduces(again, s, listening || ListenAddress in met)
    ensures Reproduces(Before(head, n, met, again), Before(head, n, met, Some(s)).value, listening)
  {
    if met == multiset{} {
      assert s.seen + met == s.seen && again.value.seen + met == again.value.seen;
    }
  }

  lemma ReproducesDropped(again: Option<Scan>, s: Scan)
    requires Reproduces(again, s, true)
    ensures Reproduces(again, Before([], 0, multiset{ListenAddress}, Some(s)).value, true)
  {
  }

  lemma ReproducesNothing(listening: bool)
    ensures Reproduces(Rewrite([], true, listening), Scan([], 0, multiset{}), listening)
    ensures Reproduces(Rewrite([], false, listening), Scan([], 0, multiset{}), listening)
  {
  }

  lemma {:induction false} RewriteAgain(ts: seq<Token>, inOptions: bool, listening: bool)
    requires Rewrite(ts, inOptions, listening).Some?
    ensures Reproduces(Rewrite(Rewrite(ts, inOptions, listening).value.output, inOptions, listening),
                       Rewrite(ts, inOptions, listening).value, listening)
    decreases |ts|
  {
    hide Skip, Forced, PolicyValue, Reproduces;
    if ts == [] { ReproducesNothing(listening); return; }
    var s := Rewrite(ts, inOptions, listening).value;
    if ts[0].Start? && IsManaged(inOptions, ts[0].tag) {
      var tag, rest := ts[0].tag, Skip(ts[1..], 1).value;
      var after := listening || tag.setting.ListenAddress?;
      RewriteAgain(rest, true, after);
      var more := Rewrite(rest, true, after).value;
      if tag.setting.ListenAddress? && listening {
        ReproducesDropped(Rewrite(more.output, true, true), more);
        assert s.output == more.output;
      } else {
        RewriteOfForced(tag, ts[0].attributes, more.output, listening);
        ReproducesStep(Rewrite(more.output, true, after), more, Forced(tag, ts[0].attributes), 0, multiset{tag.setting}, listening);
      }
    } else {
      var inside := Inside(ts[0], inOptions);
      RewriteAgain(ts[1..], inside, listening);
      var more := Rewrite(ts[1..], inside, listening).value;
      assert s.output[0] == ts[0] && s.output[1..] == more.output;
      ReproducesStep(Rewrite(more.output, inside, listening), more, [ts[0]], Opens(ts[0]), multiset{}, listening);
    }
  }

  /** Everything outside the managed option elements is kept, in order. */
  lemma {:induction false} OutsideKept(ts: seq<Token>, inOptions: bool, listening: bool)
    requires Rewrite(ts, inOptions, listening).Some?
    ensures Outside(Rewrite(ts, inOptions, listening).value.output, inOptions) == Outside(ts, inOptions)
    decreases |ts|
  {
    hide Skip, Forced, PolicyValue;
    if ts == [] { return; }
    var s := Rewrite(ts, inOptions, listening).value;
    if ts[0].Start? && IsManaged(inOptions, ts[0].tag) {
      var tag, rest := ts[0].tag, Skip(ts[1..], 1).value;
      var after := listening || tag.setting.ListenAddress?;
      OutsideKept(rest, true, after);
      var more := Rewrite(rest, true, after).value;
      if tag.setting.ListenAddress? && listening {
        assert s.output == more.output;
      } else {
        ForcedElement(tag, ts[0].attributes, more.output);
      }
    } else {
      var inside := Inside(ts[0], inOptions);
      OutsideKept(ts[1..], inside, listening);
      var more := Rewrite(ts[1..], inside, listening).value;
      assert s.output[0] == ts[0] && s.output[1..] == more.output;
    }
  }

  /** No managed option but listenAddress may be repeated. */
  ghost predicate OthersOnce(s: Scan) { forall o: Setting :: o != ListenAddress ==> s.seen[o] == 1 }

  /**
   For every stream the rewriter accepts: each option reads back at its policy value, listenAddress exactly
   once; what is outside is kept; a second rewrite is accepted and changes nothing; and the policy check
   passes exactly when no other option was repeated.
   */
  lemma AcceptedMeansPolicy(ts: seq<Token>, s: Scan)
    requires Accepted(ts, s)
    ensures Read(s.output, false).Some?
    ensures
      var r := Read(s.output, false).value;
      && r.optionsCount == 1 && r.counts[ListenAddress] == 1
      && forall o: Setting :: o in r.values && r.values[o] == PolicyValue(o)
    ensures Outside(s.output, false) == Outside(ts, false)
    ensures Rewrite(s.output, false, false).Some? && Rewrite(s.output, false, false).value.output == s.output
    ensures Accepted(s.output, Rewrite(s.output, false, false).value)
    ensures OthersOnce(Rewrite(s.output, false, false).value) <==> OthersOnce(s)
    ensures Compliant(s.output) <==> OthersOnce(s)
  {
    OutputReadsAsPolicy(ts, false, false);
    OutsideKept(ts, false, false);
    RewriteAgain(ts, false, false);
    var r := Read(s.output, false);
    KeepsEvery(r, s);
    var again := Rewrite(s.output, false, false).value;
    assert forall o: Setting :: again.seen[o] == r.value.counts[o];
    CompliantExactly(s.output, s);
  }

  lemma KeepsEvery(r: Option<Reading>, s: Scan)
    requires ReadsAs(r, s, false) && forall o: Setting :: o in s.seen
    ensures forall o: Setting :: r.value.counts[o] > 0 && o in r.value.values
    ensures forall o: Setting :: r.value.values[o] == PolicyValue(o)
    ensures forall o: Setting :: r.value.counts[o] == if o.ListenAddress? then 1 else s.seen[o]
  {
    forall o: Setting ensures r.value.counts[o] > 0 { assert o in s.seen; }
  }

  lemma CompliantExactly(ts: seq<Token>, s: Scan)
    requires ReadsAs(Read(ts, false), s, false) && s.optionsCount == 1 && forall o: Setting :: o in s.seen
    ensures Compliant(ts) <==> OthersOnce(s)
  {
    hide PolicyValue;
    var r := Read(ts, false);
    hide Read;
    KeepsEvery(r, s);
    if OthersOnce(s) {
      forall o: Setting ensures Expressed(r.value, o) {}
    }
    if Compliant(ts) {
      forall o: Setting | o != ListenAddress ensures s.seen[o] == 1 { assert Expressed(r.value, o); }
    }
  }

  // ----- what the shared notions mean -------------------------------------------------------------------

  function Net(ts: seq<Token>): int {
    if ts == [] then 0 else (match ts[0] case Start(_, _) => 1 case End(_) => -1 case _ => 0) + Net(ts[1..])
  }

  /** The k-th token is the first at which all of the given levels are closed. */
  ghost predicate Closes(ts: seq<Token>, depth: nat, k: nat) {
    0 < k <= |ts| && depth + Net(ts[..k]) == 0 && forall j :: 0 <= j < k ==> depth + Net(ts[..j]) > 0
  }

  lemma NetStep(ts: seq<Token>, k: nat)
    requires 0 < k <= |ts|
    ensures Net(ts[..k]) == (match ts[0] case Start(_, _) => 1 case End(_) => -1 case _ => 0) + Net(ts[1..][..k - 1])
  {
    assert ts[..k][1..] == ts[1..][..k - 1];
  }

  /** Skipping ends exactly after the token at which the open elements are first all closed. */
  lemma {:induction false} SkipExactly(ts: seq<Token>, depth: nat, k: nat)
    requires depth >= 1 && Closes(ts, depth, k)
    ensures Skip(ts, depth) == Some(ts[k..])
    decreases |ts|
  {
    NetStep(ts, k);
    var next := depth + match ts[0] case Start(_, _) => 1 case End(_) => -1 case _ => 0;
    if k > 1 {
      NetStep(ts, 1);
      assert ts[1..][..0] == [];
      assert next >= 1;
      forall j | 0 <= j < k - 1 ensures next + Net(ts[1..][..j]) > 0 { NetStep(ts, j + 1); }
      SkipExactly(ts[1..], next, k - 1);
      assert ts[1..][k - 1..] == ts[k..];
    } else {
      assert ts[1..][..0] == [];
    }
  }

  lemma {:induction false} SkipFinds(ts: seq<Token>, depth: nat) returns (k: nat)
    requires depth >= 1 && Skip(ts, depth).Some?
    ensures Closes(ts, depth, k)
    decreases |ts|
  {
    var next := depth + match ts[0] case Start(_, _) => 1 case End(_) => -1 case _ => 0;
    if next == 0 {
      k := 1;
      NetStep(ts, 1);
      assert ts[1..][..0] == [] && ts[..0] == [];
    } else {
      var m := SkipFinds(ts[1..], next);
      k := m + 1;
      forall j | 0 <= j <= k ensures j > 0 ==> depth + Net(ts[..j]) == next + Net(ts[1..][..j - 1]) {
        if j > 0 { NetStep(ts, j); }
      }
      assert ts[..0] == [];
    }
  }

  /** Elements inside an element contribute nothing to its character data. */
  lemma {:induction false} NestedIgnored(ts: seq<Token>, depth: nat)
    requires depth >= 1
    ensures Content(ts, depth + 1) == if Skip(ts, depth).None? then "" else Content(Skip(ts, depth).value, 1)
    decreases |ts|
  {
    if ts != [] {
      match ts[0]
      case Start(_, _) => NestedIgnored(ts[1..], depth + 1);
      case End(_) => if depth > 1 { NestedIgnored(ts[1..], depth - 1); }
      case _ => NestedIgnored(ts[1..], depth);
    }
  }

  /** A token that is no managed element and opens no second options element is kept. */
  lemma PlainToken(t: Token, ts: seq<Token>, inOptions: bool, listening: bool)
    requires !(t.Start? && IsManaged(inOptions, t.tag)) && !(inOptions && Opens(t) > 0)
    ensures Rewrite([t] + ts, inOptions, listening)
         == Before([t], Opens(t), multiset{}, Rewrite(ts, Inside(t, inOptions), listening))
  {
    hide Before;
    assert ([t] + ts)[1..] == ts;
  }

  lemma BeforeNothing(t: Token, ts: seq<Token>)
    ensures Before([t], 0, multiset{}, Some(Scan(ts, 0, multiset{}))) == Some(Scan([t] + ts, 0, multiset{}))
  {
    var none: multiset<Setting> := multiset{};
    assert none + none == none;
  }

  ghost predicate NoOptions(ts: seq<Token>) { forall i :: 0 <= i < |ts| ==> !(ts[i].Start? && ts[i].tag.OptionsTag?) }

  /** Without an options element nothing is rewritten or counted. */
  lemma {:induction false} OutsideOptionsUntouched(ts: seq<Token>, listening: bool)
    requires NoOptions(ts)
    ensures Rewrite(ts, false, listening) == Some(Scan(ts, 0, multiset{}))
    decreases |ts|
  {
    if ts != [] {
      hide Before, Rewrite;
      OutsideOptionsUntouched(ts[1..], listening);
      PlainToken(ts[0], ts[1..], false, listening);
      BeforeNothing(ts[0], ts[1..]);
      assert [ts[0]] + ts[1..] == ts;
    }
  }

  /** After the options end tag nothing more is rewritten or counted. */
  lemma AfterOptionsUntouched(ts: seq<Token>, listening: bool)
    requires NoOptions(ts)
    ensures Rewrite([End(OptionsTag)] + ts, true, listening) == Some(Scan([End(OptionsTag)] + ts, 0, multiset{}))
  {
    hide Before, Rewrite;
    OutsideOptionsUntouched(ts, listening);
    PlainToken(End(OptionsTag), ts, true, listening);
    BeforeNothing(End(OptionsTag), ts);
  }

  function Element(o: Setting, value: string): seq<Token> { [Start(Managed(o), 0), Text(value), End(Managed(o))] }

  function Elements(os: seq<Setting>, value: Setting -> string): seq<Token> {
    if os == [] then [] else Element(os[0], value(os[0])) + Elements(os[1..], value)
  }

  lemma ElementSkipped(o: Setting, value: string, rest: seq<Token>)
    ensures
      var ts := Element(o, value) + rest;
      ts != [] && ts[0] == Start(Managed(o), 0) && Skip(ts[1..], 1) == Some(rest)
  {
    var ts := Element(o, value) + rest;
    assert ts[1..][0] == Text(value) && ts[1..][1..][0] == End(Managed(o)) && ts[1..][1..][1..] == rest;
  }

  lemma {:induction false} ElementsSeen(os: seq<Setting>, value: Setting -> string, rest: seq<Token>, listening: bool)
    requires Rewrite(rest, true, true).Some? && Rewrite(rest, true, false).Some?
    requires forall l: bool :: Rewrite(rest, true, l).value.optionsCount == 0 && Rewrite(rest, true, l).value.seen == multiset{}
    ensures
      var r := Rewrite(Elements(os, value) + rest, true, listening);
      r.Some? && r.value.optionsCount == 0 && r.value.seen == multiset(os)
    decreases |os|
  {
    if os == [] {
      assert Elements(os, value) + rest == rest;
      assert Rewrite(rest, true, listening).value.seen == multiset{};
    } else {
      hide Skip, Forced;
      var o, later := os[0], Elements(os[1..], value) + rest;
      assert Elements(os, value) + rest == Element(o, value(o)) + later;
      ElementSkipped(o, value(o), later);
      ElementsSeen(os[1..], value, rest, listening || o.ListenAddress?);
      assert os == [o] + os[1..];
    }
  }

  /** The counts of a rewriting. */
  ghost predicate Counts(r: Option<Scan>, options: nat, seen: multiset<Setting>) {
    r.Some? && r.value.optionsCount == options && r.value.seen == seen
  }

  lemma BeforeCounts(t: Token, r: Option<Scan>, options: nat, seen: multiset<Setting>)
    requires Counts(r, options, seen)
    ensures Counts(Before([t], Opens(t), multiset{}, r), Opens(t) + options, seen)
  {
    assert multiset{} + seen == seen;
  }

  /** A configuration that lists every managed option in its options element, in any order and with any values, is accepted. */
  lemma ConfigurationAccepted(before: seq<Token>, os: seq<Setting>, value: Setting -> string, after: seq<Token>)
    requires NoOptions(before) && NoOptions(after) && forall o: Setting :: o in os
    ensures
      var ts := before + ([Start(OptionsTag, 0)] + (Elements(os, value) + ([End(OptionsTag)] + after)));
      Rewrite(ts, false, false).Some? && Rewrite(ts, false, false).value.seen == multiset(os)
      && Accepted(ts, Rewrite(ts, false, false).value)
  {
    hide Rewrite, Before, NoOptions, Elements;
    var tail := [End(OptionsTag)] + after;
    AfterOptionsUntouched(after, true);
    AfterOptionsUntouched(after, false);
    ElementsSeen(os, value, tail, false);
    var inner := Elements(os, value) + tail;
    PlainToken(Start(OptionsTag, 0), inner, false, false);
    BeforeCounts(Start(OptionsTag, 0), Rewrite(inner, true, false), 0, multiset(os));
    PrefixKept(before, [Start(OptionsTag, 0)] + inner, 1, multiset(os));
    AllListed(os);
  }

  lemma AllListed(os: seq<Setting>)
    requires forall o: Setting :: o in os
    ensures forall o: Setting :: o in multiset(os)
  {
    forall o: Setting ensures o in multiset(os) { assert o in os; }
  }

  lemma {:induction false} PrefixKept(before: seq<Token>, ts: seq<Token>, options: nat, seen: multiset<Setting>)
    requires NoOptions(before) && Counts(Rewrite(ts, false, false), options, seen)
    ensures Counts(Rewrite(before + ts, false, false), options, seen)
    decreases |before|
  {
    hide Rewrite, Before, Counts;
    if before == [] {
      assert before + ts == ts;
    } else {
      PrefixKept(before[1..], ts, options, seen);
      PlainToken(before[0], before[1..] + ts, false, false);
      BeforeCounts(before[0], Rewrite(before[1..] + ts, false, false), options, seen);
      assert before + ts == [before[0]] + (before[1..] + ts);
    }
  }

  /** The policy: TCP only on the wildcard address, and discovery, relays, NAT, reports and upgrades off. */
  lemma PolicyIsTcpOnly(o: Setting)
    ensures PolicyValue(o) ==
            if o == ListenAddress then "tcp://0.0.0.0:22000" else if o == UrAccepted then "-1"
            else if o == AutoUpgradeIntervalH then "0" else "false"
  {
  }

  // ----- the loops -------------------------------------------------------------------------------------

  /** Reads tokens until the element just opened is closed; next is the position after it. */
  method DiscardElement(ts: seq<Token>, from: nat) returns (ok: bool, next: nat)
    requires from <= |ts|
    ensures ok ==> from < next <= |ts|
    ensures Skip(ts[from..], 1) == if ok then Some(ts[next..]) else None
  {
    hide Skip;
    var depth := 1;
    next := from;
    while depth > 0
      invariant depth >= 0 && from <= next <= |ts| && (depth == 0 ==> from < next)
      invariant Skip(ts[from..], 1) == if depth == 0 then Some(ts[next..]) else Skip(ts[next..], depth)
      decreases |ts| - next
    {
      if next == |ts| {
        Unclosed(ts, depth);
        return false, next;
      }
      Unfold(ts, next, depth);
      match ts[next] {
        case Start(_, _) => depth := depth + 1;
        case End(_) => depth := depth - 1;
        case _ =>
      }
      next := next + 1;
    }
    ok := true;
  }

  lemma BeforeTwice(h1: seq<Token>, n1: nat, m1: multiset<Setting>, h2: seq<Token>, n2: nat, m2: multiset<Setting>, rest: Option<Scan>)
    ensures Before(h1, n1, m1, Before(h2, n2, m2, rest)) == Before(h1 + h2, n1 + n2, m1 + m2, rest)
  {
    if rest.Some? {
      assert h1 + (h2 + rest.value.output) == h1 + h2 + rest.value.output;
      assert m1 + (m2 + rest.value.seen) == m1 + m2 + rest.value.seen;
    }
  }

  lemma ReadTwice(v1: map<Setting, string>, n1: nat, m1: multiset<Setting>, v2: map<Setting, string>, n2: nat, m2: multiset<Setting>, rest: Option<Reading>)
    ensures ReadBefore(v1, n1, m1, ReadBefore(v2, n2, m2, rest)) == ReadBefore(v1 + v2, n1 + n2, m1 + m2, rest)
  {
    if rest.Some? {
      assert v1 + (v2 + rest.value.values) == v1 + v2 + rest.value.values;
      assert m1 + (m2 + rest.value.counts) == m1 + m2 + rest.value.counts;
    }
  }

  /** The rewriter's token loop, with its final checks. */
  method RewriteTokens(ts: seq<Token>) returns (r: Option<Scan>)
    ensures r.Some? ==> Accepted(ts, r.value)
    ensures r.None? ==> forall s :: !Accepted(ts, s)
  {
    hide Before, Skip, Rewrite, Forced;
    var i, inOptions, seen, output := 0, false, multiset{}, [];
    var optionsCount: nat := 0;
    RewriteStarts(ts);
    while i < |ts|
      invariant i <= |ts|
      invariant Rewrite(ts, false, false)
             == Before(output, optionsCount, seen, Rewrite(ts[i..], inOptions, ListenAddress in seen))
    {
      var t := ts[i];
      ghost var listening := ListenAddress in seen;
      RewriteAt(ts, i, inOptions, listening);
      if t.Start? && IsManaged(inOptions, t.tag) {
        var o := t.tag.setting;
        var first := ListenAddress !in seen;
        var ok, next := DiscardElement(ts, i + 1);
        if !ok { Nothing(output, optionsCount, seen); return None; }
        var head := if o.ListenAddress? && !first then [] else Forced(t.tag, t.attributes);
        BeforeTwice(output, optionsCount, seen, head, 0, multiset{o}, Rewrite(ts[next..], true, listening || o.ListenAddress?));
        output, seen, i := output + head, seen + multiset{o}, next;
      } else {
        if inOptions && Opens(t) > 0 { Nothing(output, optionsCount, seen); return None; }
        BeforeTwice(output, optionsCount, seen, [t], Opens(t), multiset{}, Rewrite(ts[i + 1..], Inside(t, inOptions), listening));
        assert seen + multiset{} == seen;
        output, optionsCount, inOptions, i := output + [t], optionsCount + Opens(t), Inside(t, inOptions), i + 1;
      }
    }
    assert ts[i..] == [];
    RewriteEnds(output, optionsCount, seen, inOptions);
    if optionsCount != 1 { return None; }
    var complete := AllSeen(seen);
    if !complete { return None; }
    r := Some(Scan(output, optionsCount, seen));
  }

  /** The rewriting from position i on, by its first token. */
  lemma RewriteAt(ts: seq<Token>, i: nat, inOptions: bool, listening: bool)
    requires i < |ts|
    ensures
      var t, rest := ts[i], Skip(ts[i + 1..], 1);
      Rewrite(ts[i..], inOptions, listening) ==
        if t.Start? && IsManaged(inOptions, t.tag) then
          if rest.None? then None
          else if t.tag.setting.ListenAddress? && listening then Before([], 0, multiset{t.tag.setting}, Rewrite(rest.value, true, true))
          else
            Before(Forced(t.tag, t.attributes), 0, multiset{t.tag.setting},
                   Rewrite(rest.value, true, listening || t.tag.setting.ListenAddress?))
        else if inOptions && Opens(t) > 0 then None
        else Before([t], Opens(t), multiset{}, Rewrite(ts[i + 1..], Inside(t, inOptions), listening))
  {
    hide Skip, Forced, Before;
    assert ts[i..][0] == ts[i] && ts[i..][1..] == ts[i + 1..];
  }

  /** Every managed option was met. */
  method AllSeen(seen: multiset<Setting>) returns (ok: bool)
    ensures ok <==> forall o: Setting :: o in seen
  {
    var every := Settings();
    for k := 0 to |every|
      invariant forall j :: 0 <= j < k ==> every[j] in seen
    {
      if every[k] !in seen { return false; }
    }
    forall o: Setting ensures o in seen { EverySetting(o); }
    ok := true;
  }

  lemma Nothing(output: seq<Token>, n: nat, seen: multiset<Setting>)
    ensures Before(output, n, seen, None) == None
  {
  }

  lemma RewriteStarts(ts: seq<Token>)
    ensures Rewrite(ts, false, false) == Before([], 0, multiset{}, Rewrite(ts[0..], false, false))
  {
    assert ts[0..] == ts;
    var r := Rewrite(ts, false, false);
    if r.Some? { assert [] + r.value.output == r.value.output && multiset{} + r.value.seen == r.value.seen; }
  }

  lemma RewriteEnds(output: seq<Token>, n: nat, seen: multiset<Setting>, inOptions: bool)
    ensures Before(output, n, seen, Rewrite([], inOptions, ListenAddress in seen)) == Some(Scan(output, n, seen))
  {
    assert output + [] == output && seen + multiset{} == seen;
  }

  function Settings(): seq<Setting> {
    [ListenAddress, GlobalAnnounceEnabled, LocalAnnounceEnabled, RelaysEnabled, NatEnabled, StartBrowser,
     UrAccepted, AutoUpgradeIntervalH, CrashReportingEnabled]
  }

  lemma EverySetting(o: Setting)
    ensures o in Settings()
  {
    var s := Settings();
    match o
    case ListenAddress => assert s[0] == o;
    case GlobalAnnounceEnabled => assert s[1] == o;
    case LocalAnnounceEnabled => assert s[2] == o;
    case RelaysEnabled => assert s[3] == o;
    case NatEnabled => assert s[4] == o;
    case StartBrowser => assert s[5] == o;
    case UrAccepted => assert s[6] == o;
    case AutoUpgradeIntervalH => assert s[7] == o;
    case CrashReportingEnabled => assert s[8] == o;
  }

  /** One token of an element's content. */
  lemma Unfold(ts: seq<Token>, next: nat, depth: nat)
    requires next < |ts| && depth >= 1
    ensures Skip(ts[next..], depth) == match ts[next]
              case Start(_, _) => Skip(ts[next + 1..], depth + 1)
              case End(_) => if depth == 1 then Some(ts[next + 1..]) else Skip(ts[next + 1..], depth - 1)
              case _ => Skip(ts[next + 1..], depth)
    ensures Content(ts[next..], depth) == match ts[next]
              case Start(_, _) => Content(ts[next + 1..], depth + 1)
              case End(_) => if depth == 1 then "" else Content(ts[next + 1..], depth - 1)
              case Text(t) => (if depth == 1 then t else "") + Content(ts[next + 1..], depth)
              case Misc(_) => Content(ts[next + 1..], depth)
  {
    assert ts[next..][0] == ts[next] && ts[next..][1..] == ts[next + 1..];
  }

  /** An unclosed element has no rest. */
  lemma Unclosed(ts: seq<Token>, depth: nat)
    requires depth >= 1
    ensures Skip(ts[|ts|..], depth) == None
  {
  }

  lemma Concatenated(a: string, b: string, c: string)
    ensures a + (b + c) == (a + b) + c && "" + c == c
  {
  }

  /** Decodes the element just opened: its direct character data, and the position after it. */
  method DecodeElement(ts: seq<Token>, from: nat) returns (ok: bool, value: string, next: nat)
    requires from <= |ts|
    ensures ok ==> from < next <= |ts|
    ensures Skip(ts[from..], 1) == if ok then Some(ts[next..]) else None
    ensures ok ==> value == Content(ts[from..], 1)
  {
    hide Skip, Content;
    var depth := 1;
    next, value := from, "";
    Concatenated("", "", Content(ts[from..], 1));
    while depth > 0
      invariant depth >= 0 && from <= next <= |ts| && (depth == 0 ==> from < next)
      invariant Skip(ts[from..], 1) == if depth == 0 then Some(ts[next..]) else Skip(ts[next..], depth)
      invariant Content(ts[from..], 1) == value + if depth == 0 then "" else Content(ts[next..], depth)
      decreases |ts| - next
    {
      if next == |ts| {
        Unclosed(ts, depth);
        return false, "", next;
      }
      Unfold(ts, next, depth);
      match ts[next] {
        case Start(_, _) => depth := depth + 1;
        case End(_) => depth := depth - 1;
        case Text(t) =>
          var more := if depth == 1 then t else "";
          Concatenated(value, more, Content(ts[next + 1..], depth));
          value := value + more;
        case Misc(_) =>
      }
      next := next + 1;
    }
    assert value + "" == value;
    ok := true;
  }

  lemma ReadStarts(ts: seq<Token>)
    ensures Read(ts, false) == ReadBefore(map[], 0, multiset{}, Read(ts[0..], false))
  {
    assert ts[0..] == ts;
    var r := Read(ts, false);
    if r.Some? { assert map[] + r.value.values == r.value.values && multiset{} + r.value.counts == r.value.counts; }
  }

  lemma ReadEnds(values: map<Setting, string>, n: nat, counts: multiset<Setting>)
    ensures ReadBefore(values, n, counts, Some(Reading(map[], multiset{}, 0))) == Some(Reading(values, counts, n))
    ensures ReadBefore(values, n, counts, None) == None
  {
    assert values + map[] == values && counts + multiset{} == counts;
  }

  /** The reader's token loop: the last value and the number of occurrences of each managed option. */
  method OptionValues(ts: seq<Token>) returns (r: Option<Reading>)
    ensures r == Read(ts, false)
  {
    hide ReadBefore, Skip, Content, Trim;
    var i, inOptions, counts, values := 0, false, multiset{}, map[];
    var optionsCount: nat := 0;
    ReadStarts(ts);
    while i < |ts|
      invariant i <= |ts|
      invariant Read(ts, false) == ReadBefore(values, optionsCount, counts, Read(ts[i..], inOptions))
    {
      var t := ts[i];
      assert ts[i..][0] == t && ts[i..][1..] == ts[i + 1..];
      if t.Start? && IsManaged(inOptions, t.tag) {
        var o := t.tag.setting;
        var ok, value, next := DecodeElement(ts, i + 1);
        if !ok { ReadEnds(values, optionsCount, counts); return None; }
        ReadTwice(values, optionsCount, counts, map[o := Trim(value)], 0, multiset{o}, Read(ts[next..], true));
        counts, values, i := counts + multiset{o}, values + map[o := Trim(value)], next;
      } else {
        ReadTwice(values, optionsCount, counts, map[], Opens(t), multiset{}, Read(ts[i + 1..], Inside(t, inOptions)));
        assert counts + multiset{} == counts && values + map[] == values;
        optionsCount, inOptions, i := optionsCount + Opens(t), Inside(t, inOptions), i + 1;
      }
    }
    assert ts[i..] == [];
    ReadEnds(values, optionsCount, counts);
    r := Some(Reading(values, counts, optionsCount));
  }

  /** The policy check. */
  method Verify(ts: seq<Token>) returns (ok: bool)
    ensures ok <==> Compliant(ts)
  {
    var r := OptionValues(ts);
    if r.None? || r.value.optionsCount != 1 { return false; }
    var every := Settings();
    for k := 0 to |every|
      invariant forall j :: 0 <= j < k ==> Expressed(r.value, every[j])
    {
      var o := every[k];
      if r.value.counts[o] != 1 || o !in r.value.values || r.value.values[o] != PolicyValue(o) {
        assert !Expressed(r.value, o);
        return false;
      }
    }
    forall o: Setting ensures Expressed(r.value, o) { EverySetting(o); }
    ok := true;
  }

  /** The configuration file, held as its token stream. */
  class ConfigurationFile {
    var tokens: seq<Token>

    constructor (ts: seq<Token>)
      ensures tokens == ts
    {
      tokens := ts;
    }

    /**
     Enforces the policy. It succeeds exactly on the accepted streams in which no option but listenAddress is
     repeated; then the file holds the policy, and otherwise it is what it was.
     */
    method Apply() returns (ok: bool)
      modifies this
      ensures ok <==> exists s :: Accepted(old(tokens), s) && OthersOnce(s)
      ensures ok ==> exists s :: Accepted(old(tokens), s) && tokens == s.output
      ensures ok ==> Compliant(tokens) && Outside(tokens, false) == Outside(old(tokens), false)
      ensures !ok ==> tokens == old(tokens)
    {
      hide Compliant, OthersOnce;
      var original := tokens;
      var r := RewriteTokens(tokens);
      if r.None? { return false; }
      tokens := r.value.output;
      AcceptedMeansPolicy(original, r.value);
      ok := Verify(tokens);
      if !ok { tokens := original; }
    }
  }
}
