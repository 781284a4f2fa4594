/**
 What a command line says, apart from the parser's state: which parameters its tokens name and what values they are
 given, up to the first token that cannot be read.
 */
module CommandEvents {
  import opened Prelude
  import opened CommandLine

  datatype Event = Name(i: nat, long: bool) | Value(i: nat, v: string)

  /** The events of some tokens, the parameter whose value is still to come, and why reading stopped early. */
  datatype Reading = Reading(events: seq<Event>, awaits: Option<nat>, error: Option<Error>)

  function Then(a: Reading, b: Reading): Reading {
    if a.error.Some? then a else Reading(a.events + b.events, b.awaits, b.error)
  }

  /** The names of a cluster, of which one that takes a value ends it. */
  function ReadCluster(params: seq<Param>, names: string): Reading
    decreases names
  {
    if names == "" then Reading([], None, None) else
      match FindShort(params, names[0])
      case None => Reading([], None, Some(UnknownParameter))
      case Some(i) =>
        if params[i].kind.FlagKind? then Then(Reading([Name(i, false)], None, None), ReadCluster(params, names[1..]))
        else if |names| == 1 then Reading([Name(i, false)], Some(i), None)
        else Reading([Name(i, false), Value(i, names[1..])], None, None)
  }

  function ReadToken(params: seq<Param>, awaits: Option<nat>, t: string): Reading {
    if t == "-" || t == "--" then Reading([], awaits, Some(BareSign))
    else if awaits.Some? then Reading([Value(awaits.value, t)], None, None)
    else if "--" <= t then
      match FindLong(params, t[2..])
      case None => Reading([], None, Some(UnknownParameter))
      case Some(i) => Reading([Name(i, true)], if params[i].kind.StringKind? then Some(i) else None, None)
    else if "-" <= t then ReadCluster(params, t[1..])
    else Reading([], None, Some(UnexpectedToken))
  }

  function ReadAll(params: seq<Param>, awaits: Option<nat>, ts: seq<string>): Reading
    decreases ts
  {
    if ts == [] then Reading([], awaits, None)
    else var r := ReadToken(params, awaits, ts[0]); Then(r, ReadAll(params, r.awaits, ts[1..]))
  }

  // ---------- what events do ----------

  predicate Named(events: seq<Event>, i: nat) { exists k :: 0 <= k < |events| && events[k].Name? && events[k].i == i }
  predicate NamedLong(events: seq<Event>, i: nat) { exists k :: 0 <= k < |events| && events[k] == Name(i, true) }

  function ValuesOf(events: seq<Event>, i: nat): seq<string> {
    if events == [] then [] else
      var init, last := events[..|events| - 1], events[|events| - 1];
      ValuesOf(init, i) + if last.Value? && last.i == i then [last.v] else []
  }

  /** A parameter after events: present exactly if it was or is named, its values behind those it had. */
  function After(p: Param, i: nat, events: seq<Event>): Param {
    p.(present := p.present || Named(events, i), wasLongName := p.wasLongName || NamedLong(events, i),
       values := p.values + ValuesOf(events, i))
  }

  /** No flag that is present already is named, and none is named twice. */
  predicate FlagsOnce(params: seq<Param>, events: seq<Event>) {
    forall k :: 0 <= k < |events| ==> FlagFresh(params, events, k)
  }

  predicate FlagFresh(params: seq<Param>, events: seq<Event>, k: nat)
    requires k < |events|
  {
    events[k].Name? && events[k].i < |params| && params[events[k].i].kind.FlagKind? ==>
      !params[events[k].i].present && !Named(events[..k], events[k].i)
  }

  predicate InRange(params: seq<Param>, events: seq<Event>) {
    forall k :: 0 <= k < |events| ==> events[k].i < |params| && (events[k].Value? ==> params[events[k].i].kind.StringKind?)
  }

  /** The parameters after events, or up to the first flag that was present already. */
  datatype Applied = Applied(params: seq<Param>, ok: bool)

  function Apply(params: seq<Param>, events: seq<Event>): (r: Applied)
    requires InRange(params, events)
    ensures |r.params| == |params| && forall i :: 0 <= i < |params| ==> r.params[i].kind == params[i].kind
  {
    if events == [] then Applied(params, true) else
      var init, e := events[..|events| - 1], events[|events| - 1];
      var r := Apply(params, init);
      if !r.ok then r else ApplyOne(r.params, e)
  }

  function ApplyOne(params: seq<Param>, e: Event): (r: Applied)
    requires e.i < |params|
    ensures |r.params| == |params| && forall i :: 0 <= i < |params| ==> r.params[i].kind == params[i].kind
  {
    match e
    case Name(i, long) =>
      (match Mark(params[i], long)
       case None => Applied(params, false)
       case Some(p) => Applied(params[i := p], true))
    case Value(i, v) => Applied(params[i := TakeValue(params[i], v)], true)
  }

  lemma NamedLast(events: seq<Event>, i: nat)
    requires events != []
    ensures var init, e := events[..|events| - 1], events[|events| - 1];
            && (Named(events, i) <==> Named(init, i) || (e.Name? && e.i == i))
            && (NamedLong(events, i) <==> NamedLong(init, i) || e == Name(i, true))
  {
    var init, e := events[..|events| - 1], events[|events| - 1];
    if e.Name? && e.i == i { assert events[|events| - 1].Name?; }
    if k :| 0 <= k < |init| && init[k].Name? && init[k].i == i { assert events[k] == init[k]; }
    if k :| 0 <= k < |init| && init[k] == Name(i, true) { assert events[k] == init[k]; }
    if k :| 0 <= k < |events| && events[k].Name? && events[k].i == i { assert k < |init| ==> init[k] == events[k]; }
    if k :| 0 <= k < |events| && events[k] == Name(i, true) { assert k < |init| ==> init[k] == events[k]; }
  }

  lemma FlagsOnceLast(params: seq<Param>, events: seq<Event>)
    requires events != []
    ensures FlagsOnce(params, events) <==> FlagsOnce(params, events[..|events| - 1]) && FlagFresh(params, events, |events| - 1)
  {
    var init := events[..|events| - 1];
    forall k: nat | k < |init| ensures FlagFresh(params, events, k) <==> FlagFresh(params, init, k) { assert events[..k] == init[..k]; }
    if FlagsOnce(params, events) {
      forall k: nat | k < |init| ensures FlagFresh(params, init, k) { assert FlagFresh(params, events, k); }
    }
  }

  lemma AfterLast(p: Param, i: nat, events: seq<Event>)
    requires events != []
    ensures var before, e := After(p, i, events[..|events| - 1]), events[|events| - 1];
            After(p, i, events) ==
            if e.i != i then before
            else if e.Name? then before.(present := true, wasLongName := before.wasLongName || e.long)
            else before.(values := before.values + [e.v])
  {
    var init, e := events[..|events| - 1], events[|events| - 1];
    hide Named, NamedLong;
    NamedLast(events, i);
    if e.Value? && e.i == i {
      assert p.values + (ValuesOf(init, i) + [e.v]) == (p.values + ValuesOf(init, i)) + [e.v];
    } else {
      assert ValuesOf(events, i) == ValuesOf(init, i);
    }
  }

  /** Events go through exactly if no flag is named twice, and every parameter is then what the events say of it. */
  lemma {:induction false} ApplyMeaning(params: seq<Param>, events: seq<Event>)
    requires InRange(params, events)
    ensures Apply(params, events).ok <==> FlagsOnce(params, events)
    ensures Apply(params, events).ok ==>
              forall i :: 0 <= i < |params| ==> Apply(params, events).params[i] == After(params[i], i, events)
  {
    if events == [] {
      forall i | 0 <= i < |params| ensures params[i] == After(params[i], i, []) { assert params[i].values + [] == params[i].values; }
    } else {
      var init, e := events[..|events| - 1], events[|events| - 1];
      ApplyMeaning(params, init);
      FlagsOnceLast(params, events);
      var r := Apply(params, init);
      if r.ok {
        assert r.params[e.i] == After(params[e.i], e.i, init);
        hide FlagsOnce, Named, After;
        forall i | 0 <= i < |params| && Apply(params, events).ok ensures Apply(params, events).params[i] == After(params[i], i, events) {
          AfterLast(params[i], i, events);
          assert r.params[i] == After(params[i], i, init);
        }
      }
    }
  }

  lemma {:induction false} ApplyConcat(params: seq<Param>, a: seq<Event>, b: seq<Event>)
    requires InRange(params, a) && InRange(params, b)
    ensures InRange(params, a + b) && InRange(Apply(params, a).params, b)
    ensures Apply(params, a + b) == if Apply(params, a).ok then Apply(Apply(params, a).params, b) else Apply(params, a)
  {
    if b == [] {
      assert a + b == a;
    } else {
      var init := b[..|b| - 1];
      assert (a + b)[..|a + b| - 1] == a + init;
      ApplyConcat(params, a, init);
    }
  }

  // ---------- the parser does what the events say ----------

  /** Parameters that are named alike and take values alike. */
  predicate SameNames(a: seq<Param>, b: seq<Param>) {
    |a| == |b| && forall i :: 0 <= i < |a| ==> a[i].kind == b[i].kind && a[i].shortName == b[i].shortName && a[i].longName == b[i].longName
  }

  lemma {:induction false} SameFinds(a: seq<Param>, b: seq<Param>, c: char, name: string)
    requires SameNames(a, b)
    ensures FindShort(a, c) == FindShort(b, c) && FindLong(a, name) == FindLong(b, name)
    decreases |a|
  {
    if a != [] { SameFinds(a[1..], b[1..], c, name); }
  }

  lemma {:induction false} SameCluster(a: seq<Param>, b: seq<Param>, names: string)
    requires SameNames(a, b)
    ensures ReadCluster(a, names) == ReadCluster(b, names)
    decreases names
  {
    if names != "" {
      SameFinds(a, b, names[0], "");
      SameCluster(a, b, names[1..]);
    }
  }

  lemma {:induction false} SameReading(a: seq<Param>, b: seq<Param>, awaits: Option<nat>, ts: seq<string>)
    requires SameNames(a, b)
    ensures ReadAll(a, awaits, ts) == ReadAll(b, awaits, ts)
    decreases ts
  {
    if ts != [] {
      if "--" <= ts[0] { SameFinds(a, b, 'x', ts[0][2..]); }
      if "-" <= ts[0] { SameCluster(a, b, ts[0][1..]); }
      SameReading(a, b, ReadToken(a, awaits, ts[0]).awaits, ts[1..]);
    }
  }

  /** A state's parameter that is awaiting its value. */
  function Awaits(s: State): Option<nat> { if s.nextTokenIsValue then s.lastParameter else None }

  predicate Sound(params: seq<Param>, r: Reading) {
    InRange(params, r.events) && (r.awaits.Some? ==> r.awaits.value < |params| && params[r.awaits.value].kind.StringKind?)
  }

  /** The outcome that a reading stands for. */
  predicate Means(s: State, r: Reading, o: Outcome)
    requires InRange(s.params, r.events)
  {
    var after := Apply(s.params, r.events);
    && o.state.params == after.params && SameNames(s.params, o.state.params)
    && o.error == (if after.ok then r.error else Some(AlreadyPresent))
    && (o.error.None? ==> Awaits(o.state) == r.awaits && Valid(o.state))
  }

  lemma ApplySingle(params: seq<Param>, e: Event)
    requires e.i < |params| && InRange(params, [e])
    ensures Apply(params, [e]) == ApplyOne(params, e)
  {
    assert [e][..0] == [];
  }

  lemma {:induction false} ClusterMeans(s: State, names: string)
    requires !s.nextTokenIsValue
    ensures Sound(s.params, ReadCluster(s.params, names))
    ensures Means(s, ReadCluster(s.params, names), Cluster(s, names))
    decreases names
  {
    ClusterSound(s.params, names);
    if names != "" && FindShort(s.params, names[0]).Some? {
      var i := FindShort(s.params, names[0]).value;
      if s.params[i].kind.StringKind? {
        ClusterOption(s, names, i);
      } else if Mark(s.params[i], false).Some? {
        var s' := s.(params := s.params[i := Mark(s.params[i], false).value]);
        SameCluster(s.params, s'.params, names[1..]);
        ClusterMeans(s', names[1..]);
        ClusterFlag(s, names, i);
      } else {
        ClusterSound(s.params, names[1..]);
        ApplySingle(s.params, Name(i, false));
        ApplyConcat(s.params, [Name(i, false)], ReadCluster(s.params, names[1..]).events);
      }
    }
  }

  lemma ClusterOption(s: State, names: string, i: nat)
    requires !s.nextTokenIsValue && names != "" && FindShort(s.params, names[0]) == Some(i) && s.params[i].kind.StringKind?
    requires Sound(s.params, ReadCluster(s.params, names))
    ensures Means(s, ReadCluster(s.params, names), Cluster(s, names))
  {
    var e := Name(i, false);
    assert InRange(s.params, [e]);
    ApplySingle(s.params, e);
    if |names| > 1 {
      var p, f := Mark(s.params[i], false).value, Value(i, names[1..]);
      ApplySingle(s.params[i := p], f);
      ApplyConcat(s.params, [e], [f]);
      assert [e] + [f] == [e, f];
      assert s.params[i := p][i := TakeValue(p, names[1..])] == s.params[i := TakeValue(p, names[1..])];
    }
  }

  lemma ClusterFlag(s: State, names: string, i: nat)
    requires !s.nextTokenIsValue && names != "" && FindShort(s.params, names[0]) == Some(i) && s.params[i].kind.FlagKind?
    requires Sound(s.params, ReadCluster(s.params, names)) && Sound(s.params, ReadCluster(s.params, names[1..]))
    requires Mark(s.params[i], false).Some?
    requires var s' := s.(params := s.params[i := Mark(s.params[i], false).value]);
             var more := ReadCluster(s.params, names[1..]);
             InRange(s'.params, more.events) && Means(s', more, Cluster(s', names[1..]))
    ensures Means(s, ReadCluster(s.params, names), Cluster(s, names))
  {
    hide Apply, InRange;
    var e := Name(i, false);
    assert InRange(s.params, [e]) by { InRangeOne(s.params, e); }
    ApplySingle(s.params, e);
    ApplyConcat(s.params, [e], ReadCluster(s.params, names[1..]).events);
  }

  lemma InRangeOne(params: seq<Param>, e: Event)
    requires e.i < |params| && (e.Value? ==> params[e.i].kind.StringKind?)
    ensures InRange(params, [e])
  {
  }

  lemma {:induction false} ClusterSound(params: seq<Param>, names: string)
    ensures Sound(params, ReadCluster(params, names))
    decreases names
  {
    if names != "" { ClusterSound(params, names[1..]); }
  }

  lemma TokenMeans(s: State, t: string)
    requires Valid(s)
    ensures Sound(s.params, ReadToken(s.params, Awaits(s), t))
    ensures Means(s, ReadToken(s.params, Awaits(s), t), Token(s, t))
  {
    var r := ReadToken(s.params, Awaits(s), t);
    if t == "-" || t == "--" {
    } else if s.nextTokenIsValue {
      ApplySingle(s.params, Value(s.lastParameter.value, t));
    } else if "--" <= t {
      if FindLong(s.params, t[2..]).Some? { ApplySingle(s.params, Name(FindLong(s.params, t[2..]).value, true)); }
    } else if "-" <= t {
      ClusterMeans(s, t[1..]);
    }
  }

  lemma {:induction false} ReadingSound(params: seq<Param>, awaits: Option<nat>, ts: seq<string>)
    requires awaits.Some? ==> awaits.value < |params| && params[awaits.value].kind.StringKind?
    ensures Sound(params, ReadAll(params, awaits, ts))
    decreases ts
  {
    if ts != [] {
      if "-" <= ts[0] { ClusterSound(params, ts[0][1..]); }
      ReadingSound(params, ReadToken(params, awaits, ts[0]).awaits, ts[1..]);
    }
  }

  lemma {:induction false} TokensMean(s: State, ts: seq<string>)
    requires Valid(s)
    ensures Sound(s.params, ReadAll(s.params, Awaits(s), ts))
    ensures Means(s, ReadAll(s.params, Awaits(s), ts), Tokens(s, ts))
    decreases ts
  {
    ReadingSound(s.params, Awaits(s), ts);
    if ts != [] {
      hide Token, ReadToken;
      TokenMeans(s, ts[0]);
      var r, o := ReadToken(s.params, Awaits(s), ts[0]), Token(s, ts[0]);
      var more := ReadAll(s.params, r.awaits, ts[1..]);
      if r.error.None? {
        ReadingSound(s.params, r.awaits, ts[1..]);
        ApplyConcat(s.params, r.events, more.events);
        if o.error.None? {
          SameReading(s.params, o.state.params, r.awaits, ts[1..]);
          TokensMean(o.state, ts[1..]);
        }
      }
    }
  }

  /**
   A whole command line: it fails as its reading does, or because a flag is named that is present already; otherwise
   every parameter is present exactly if it was or is named, by either name, and has the values it had and those given.
   */
  lemma ProcessMeaning(s: State, ts: seq<string>)
    requires Valid(s)
    ensures var r, o := ReadAll(s.params, Awaits(s), ts), Process(s, ts);
            && InRange(s.params, r.events) && |o.state.params| == |s.params|
            && o.error == (if !FlagsOnce(s.params, r.events) then Some(AlreadyPresent)
                           else if r.error.Some? then r.error
                           else if r.awaits.Some? then Some(MissingValue) else None)
            && (FlagsOnce(s.params, r.events) ==>
                  forall i :: 0 <= i < |s.params| ==> o.state.params[i] == After(s.params[i], i, r.events))
  {
    hide ReadAll, Tokens, FlagsOnce, Apply, After;
    TokensMean(s, ts);
    ApplyMeaning(s.params, ReadAll(s.params, Awaits(s), ts).events);
  }

  // ---------- the two names of a parameter ----------

  /** Equal but for the record of which name was used. */
  predicate Alike(a: seq<Param>, b: seq<Param>) {
    |a| == |b| && forall i :: 0 <= i < |a| ==> a[i].(wasLongName := false) == b[i].(wasLongName := false)
  }

  lemma {:induction false} ApplyAlike(a: seq<Param>, b: seq<Param>, events: seq<Event>)
    requires Alike(a, b) && InRange(a, events)
    ensures InRange(b, events) && Alike(Apply(a, events).params, Apply(b, events).params)
    ensures Apply(a, events).ok == Apply(b, events).ok
  {
    if events != [] { ApplyAlike(a, b, events[..|events| - 1]); }
  }

  /**
   Where a short and a long name find the same parameter, a command line that begins with either one comes to the
   same: the same failure, or the same parameters but for the record of the name.
   */
  lemma EitherName(s: State, c: char, name: string, more: seq<string>)
    requires Valid(s) && !s.nextTokenIsValue && c != '-' && name != ""
    requires FindShort(s.params, c).Some? && FindShort(s.params, c) == FindLong(s.params, name)
    ensures var a, b := Process(s, ["-" + [c]] + more), Process(s, ["--" + name] + more);
            a.error == b.error && Alike(a.state.params, b.state.params)
  {
    var i := FindShort(s.params, c).value;
    var awaits := if s.params[i].kind.StringKind? then Some(i) else None;
    NamesRead(s, c, name, i, awaits);
    hide ReadAll, ReadToken, Process, Apply;
    LineFrom(s, "-" + [c], i, false, awaits, more);
    LineFrom(s, "--" + name, i, true, awaits, more);
    if Mark(s.params[i], false).Some? {
      ApplyAlike(ApplyOne(s.params, Name(i, false)).params, ApplyOne(s.params, Name(i, true)).params, ReadAll(s.params, awaits, more).events);
    }
  }

  /** A command line whose first token is one name. */
  lemma LineFrom(s: State, t: string, i: nat, long: bool, awaits: Option<nat>, more: seq<string>)
    requires Valid(s) && !s.nextTokenIsValue && i < |s.params| && (awaits.Some? ==> awaits == Some(i) && s.params[i].kind.StringKind?)
    requires ReadToken(s.params, None, t) == Reading([Name(i, long)], awaits, None)
    ensures var o, first, rest := Process(s, [t] + more), ApplyOne(s.params, Name(i, long)), ReadAll(s.params, awaits, more);
            && InRange(first.params, rest.events)
            && var after := if first.ok then Apply(first.params, rest.events) else first;
               && o.state.params == after.params
               && o.error == (if !after.ok then Some(AlreadyPresent) else if rest.error.None? && rest.awaits.Some? then Some(MissingValue) else rest.error)
  {
    var rest, e := ReadAll(s.params, awaits, more), Name(i, long);
    assert ([t] + more)[1..] == more;
    assert ReadAll(s.params, None, [t] + more) == Then(Reading([e], awaits, None), rest);
    hide ReadAll, ReadToken, Tokens;
    TokensMean(s, [t] + more);
    ReadingSound(s.params, awaits, more);
    InRangeOne(s.params, e);
    ApplySingle(s.params, e);
    ApplyConcat(s.params, [e], rest.events);
  }

  lemma NamesRead(s: State, c: char, name: string, i: nat, awaits: Option<nat>)
    requires c != '-' && name != "" && FindShort(s.params, c) == Some(i) && FindLong(s.params, name) == Some(i)
    requires awaits == if s.params[i].kind.StringKind? then Some(i) else None
    ensures ReadToken(s.params, None, "-" + [c]) == Reading([Name(i, false)], awaits, None)
    ensures ReadToken(s.params, None, "--" + name) == Reading([Name(i, true)], awaits, None)
  {
    var short, long := "-" + [c], "--" + name;
    assert short[1..] == [c] && short[1] == c && [c][1..] == "";
    assert long[2..] == name && |long| > 2;
    assert ReadCluster(s.params, "") == Reading([], None, None);
    assert ReadCluster(s.params, [c]) == Reading([Name(i, false)], awaits, None);
    assert short != "--" && long[0] == '-' && long[1] == '-' && long != "-";
    assert "--" <= long && !("--" <= short);
  }

  /** A flag that was named before, by either name, is refused, whatever follows. */
  lemma FlagTwice(s: State, before: seq<string>, i: nat, t: string, more: seq<string>)
    requires Valid(s) && Process(s, before).error.None? && i < |s.params| && s.params[i].kind.FlagKind?
    requires s.params[i].present || Named(ReadAll(s.params, Awaits(s), before).events, i)
    requires ReadToken(s.params, None, t).events != [] && ReadToken(s.params, None, t).events[0] in {Name(i, false), Name(i, true)}
    ensures Process(s, before + [t] + more).error == Some(AlreadyPresent)
  {
    hide Token, ReadAll, ReadToken, FlagsOnce, Named;
    ProcessMeaning(s, before);
    var o := Tokens(s, before);
    TokensMean(s, before);
    assert o.state.params[i].present;
    SameToken(s.params, o.state.params, t);
    TokenMeans(o.state, t);
    var events := ReadToken(o.state.params, None, t).events;
    assert [events[0]] + events[1..] == events;
    assert InRange(o.state.params, [events[0]]) && InRange(o.state.params, events[1..]);
    ApplySingle(o.state.params, events[0]);
    ApplyConcat(o.state.params, [events[0]], events[1..]);
    assert Token(o.state, t).error == Some(AlreadyPresent);
    assert before + [t] + more == before + ([t] + more);
    TokensConcat(s, before, [t] + more);
    TokensOne(o.state, t, more);
  }

  lemma SameToken(a: seq<Param>, b: seq<Param>, t: string)
    requires SameNames(a, b)
    ensures ReadToken(a, None, t) == ReadToken(b, None, t)
  {
    if "--" <= t { SameFinds(a, b, 'x', t[2..]); }
    if "-" <= t { SameCluster(a, b, t[1..]); }
  }

  const EXAMPLE := [Param(FlagKind, 'v', Some("verbose"), false, false, []), Param(StringKind, 'o', Some("out"), false, false, [])]

  /** An option by its long name, then a cluster of a flag and the option with its value attached. */
  lemma LineExample()
    ensures ReadAll(EXAMPLE, None, ["--out", "a", "-voB"]) ==
            Reading([Name(1, true), Value(1, "a"), Name(0, false), Name(1, false), Value(1, "B")], None, None)
  {
    ExampleNames();
    assert ReadToken(EXAMPLE, None, "--out") == Reading([Name(1, true)], Some(1), None) by { assert "--out"[2..] == "out"; }
    assert ReadToken(EXAMPLE, Some(1), "a") == Reading([Value(1, "a")], None, None);
    var cluster := Reading([Name(0, false), Name(1, false), Value(1, "B")], None, None);
    assert ReadCluster(EXAMPLE, "oB") == Reading([Name(1, false), Value(1, "B")], None, None) by { assert "oB"[1..] == "B"; }
    assert ReadCluster(EXAMPLE, "voB") == cluster by { assert "voB"[1..] == "oB"; }
    assert ReadToken(EXAMPLE, None, "-voB") == cluster by { assert "-voB"[1..] == "voB"; }
    hide ReadToken;
    assert ["--out", "a", "-voB"][1..] == ["a", "-voB"] && ["a", "-voB"][1..] == ["-voB"] && ["-voB"][1..] == [];
    assert ReadAll(EXAMPLE, None, ["-voB"]) == cluster;
    assert ReadAll(EXAMPLE, Some(1), ["a", "-voB"]) == Reading([Value(1, "a")] + cluster.events, None, None);
  }

  lemma ExampleNames()
    ensures FindShort(EXAMPLE, 'v') == Some(0) && FindShort(EXAMPLE, 'o') == Some(1) && FindLong(EXAMPLE, "out") == Some(1)
  {
    assert FindShort(EXAMPLE[1..], 'o') == Some(0) && FindLong(EXAMPLE[1..], "out") == Some(0);
  }
}
