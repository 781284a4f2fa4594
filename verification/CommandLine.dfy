/**
 The command-line parser: a state machine over tokens.

 A token is an option cluster, a long option, or the value the previous token asked for. Exceptions become
 an error code; the state at the throw is kept, as the parser's parameters keep it.
 */
module CommandLine {
  import opened Prelude

  datatype Kind = FlagKind | StringKind

  datatype Param = Param(
    kind: Kind, shortName: char, longName: Option<string>,
    present: bool, wasLongName: bool, values: seq<string>)

  datatype Error = BareSign | UnexpectedToken | UnknownParameter | AlreadyPresent | MissingValue | NoLastParameter

  datatype State = State(params: seq<Param>, lastParameter: Option<nat>, nextTokenIsValue: bool)

  datatype Outcome = Outcome(state: State, error: Option<Error>)

  const NO_SHORT_NAME := '-'
  const NO_LONG_NAME := "--"

  predicate MatchesShort(p: Param, c: char) { p.shortName != NO_SHORT_NAME && p.shortName == c }
  predicate MatchesLong(p: Param, s: string) {
    p.longName.Some? && p.longName.value != NO_LONG_NAME && p.longName.value == s
  }

  /** `getParameter`: the first parameter that matches. */
  function FindShort(params: seq<Param>, c: char): (r: Option<nat>)
    ensures r.Some? ==> r.value < |params| && MatchesShort(params[r.value], c)
                        && forall j :: 0 <= j < r.value ==> !MatchesShort(params[j], c)
    ensures r.None? ==> forall j :: 0 <= j < |params| ==> !MatchesShort(params[j], c)
  {
    if params == [] then None
    else if MatchesShort(params[0], c) then Some(0)
    else match FindShort(params[1..], c) case None => None case Some(i) => Some(i + 1)
  }

  function FindLong(params: seq<Param>, s: string): (r: Option<nat>)
    ensures r.Some? ==> r.value < |params| && MatchesLong(params[r.value], s)
                        && forall j :: 0 <= j < r.value ==> !MatchesLong(params[j], s)
    ensures r.None? ==> forall j :: 0 <= j < |params| ==> !MatchesLong(params[j], s)
  {
    if params == [] then None
    else if MatchesLong(params[0], s) then Some(0)
    else match FindLong(params[1..], s) case None => None case Some(i) => Some(i + 1)
  }

  function Mark(p: Param, long: bool): Option<Param> {
    if p.kind.FlagKind? && p.present then None
    else Some(p.(present := true, wasLongName := p.wasLongName || long))
  }

  function TakeValue(p: Param, v: string): Param {
    if p.kind.StringKind? then p.(values := p.values + [v]) else p
  }

  function Fail(s: State, e: Error): Outcome { Outcome(s, Some(e)) }
  function Done(s: State): Outcome { Outcome(s, None) }

  /** `shortNameParameter` on the names `rest` of a cluster. */
  function Cluster(s: State, rest: string): Outcome
    decreases rest
  {
    if rest == [] then Done(s) else
      match FindShort(s.params, rest[0])
      case None => Fail(s, UnknownParameter)
      case Some(i) =>
        match Mark(s.params[i], false)
        case None => Fail(s, AlreadyPresent)
        case Some(p) =>
          if p.kind.StringKind? then
            if |rest| == 1 then Done(State(s.params[i := p], Some(i), true))
            else Done(s.(params := s.params[i := TakeValue(p, rest[1..])]))
          else Cluster(s.(params := s.params[i := p]), rest[1..])
  }

  /** `longNameParameter` */
  function Long(s: State, name: string): Outcome {
    match FindLong(s.params, name)
    case None => Fail(s, UnknownParameter)
    case Some(i) =>
      match Mark(s.params[i], true)
      case None => Fail(s, AlreadyPresent)
      case Some(p) =>
        if p.kind.StringKind? then Done(State(s.params[i := p], Some(i), true))
        else Done(s.(params := s.params[i := p]))
  }

  /** `setValue` */
  function SetValue(s: State, v: string): Outcome {
    if s.lastParameter.None? || s.lastParameter.value >= |s.params| then Fail(s, NoLastParameter) else
      var i := s.lastParameter.value;
      Done(s.(params := s.params[i := TakeValue(s.params[i], v)], nextTokenIsValue := false))
  }

  /** One token of `processCommandLine`. */
  function Token(s: State, t: string): Outcome {
    if t == "-" || t == "--" then Fail(s, BareSign)
    else if s.nextTokenIsValue then SetValue(s, t)
    else if "--" <= t then Long(s, t[2..])
    else if "-" <= t then Cluster(s, t[1..])
    else Fail(s, UnexpectedToken)
  }

  function Tokens(s: State, ts: seq<string>): Outcome
    decreases ts
  {
    if ts == [] then Done(s) else
      var r := Token(s, ts[0]);
      if r.error.Some? then r else Tokens(r.state, ts[1..])
  }

  /** `processCommandLine` */
  function Process(s: State, ts: seq<string>): Outcome {
    var r := Tokens(s, ts);
    if r.error.None? && r.state.nextTokenIsValue then Fail(r.state, MissingValue) else r
  }

  /** A token is awaited only by a parameter that takes values. */
  predicate Valid(s: State) {
    s.nextTokenIsValue ==>
      && s.lastParameter.Some? && s.lastParameter.value < |s.params|
      && s.params[s.lastParameter.value].kind.StringKind?
  }

  // ---------- the parser object ----------

  class CommandLineParser {
    var params: seq<Param>
    var lastParameter: Option<nat>
    var nextTokenIsValue: bool

    function Abs(): State
      reads this
    {
      State(params, lastParameter, nextTokenIsValue)
    }

    constructor (params: seq<Param>)
      ensures Abs() == State(params, None, false) && Valid(Abs())
    {
      this.params, lastParameter, nextTokenIsValue := params, None, false;
    }

    method GetParameter(c: char) returns (r: Option<nat>)
      ensures r == FindShort(params, c)
    {
      ghost var found := FindShort(params, c);
      for i := 0 to |params|
        invariant forall j :: 0 <= j < i ==> !MatchesShort(params[j], c)
      {
        if MatchesShort(params[i], c) { return Some(i); }
      }
      return None;
    }

    method ShortNameParameter(nextToken: string) returns (error: Option<Error>)
      requires "-" <= nextToken
      modifies this
      ensures Outcome(Abs(), error) == Cluster(old(Abs()), nextToken[1..])
    {
      var i := 1;
      while i < |nextToken|
        invariant 1 <= i <= |nextToken|
        invariant Cluster(Abs(), nextToken[i..]) == Cluster(old(Abs()), nextToken[1..])
      {
        var k := GetParameter(nextToken[i]);
        if k.None? { return Some(UnknownParameter); }
        var p := Mark(params[k.value], false);
        if p.None? { return Some(AlreadyPresent); }
        assert nextToken[i..][1..] == nextToken[i + 1..];
        params := params[k.value := p.value];
        if p.value.kind.StringKind? {
          if i == |nextToken| - 1 {
            lastParameter, nextTokenIsValue := k, true;
          } else {
            params := params[k.value := TakeValue(p.value, nextToken[i + 1..])];
          }
          return None;
        }
        i := i + 1;
      }
      return None;
    }

    method ProcessCommandLine(argv: seq<string>) returns (error: Option<Error>)
      requires Valid(Abs())
      modifies this
      ensures Outcome(Abs(), error) == Process(old(Abs()), argv)
      ensures Valid(Abs())
    {
      error := None;
      for i := 0 to |argv|
        invariant Valid(Abs()) && error.None?
        invariant Tokens(Abs(), argv[i..]) == Tokens(old(Abs()), argv)
      {
        var nextToken := argv[i];
        ghost var before := Abs();
        assert argv[i..][1..] == argv[i + 1..];
        TokenValid(before, nextToken);
        if nextToken == "-" || nextToken == "--" { return Some(BareSign); }
        if nextTokenIsValue {
          var p := lastParameter.value;
          params, nextTokenIsValue := params[p := TakeValue(params[p], nextToken)], false;
        } else if "--" <= nextToken {
          var r := Long(Abs(), nextToken[2..]);
          params, lastParameter, nextTokenIsValue := r.state.params, r.state.lastParameter, r.state.nextTokenIsValue;
          error := r.error;
        } else if "-" <= nextToken {
          error := ShortNameParameter(nextToken);
        } else {
          error := Some(UnexpectedToken);
        }
        assert Outcome(Abs(), error) == Token(before, nextToken);
        if error.Some? { return; }
      }
      if nextTokenIsValue { error := Some(MissingValue); }
    }

    /** `getValueAsString` without default, and `popValue`: the oldest value first. */
    method PopValue(i: nat) returns (v: Option<string>)
      requires i < |params|
      modifies this`params
      ensures v == if old(params)[i].values == [] then None else Some(old(params)[i].values[0])
      ensures v.Some? && old(params)[i].kind.StringKind? ==>
                params == old(params)[i := old(params)[i].(values := old(params)[i].values[1..])]
      ensures v.None? || old(params)[i].kind.FlagKind? ==> params == old(params)
    {
      var p := params[i];
      if p.values == [] { return None; }
      v := Some(p.values[0]);
      if p.kind.StringKind? { params := params[i := p.(values := p.values[1..])]; }
    }
  }

  // ---------- invariant ----------

  lemma {:induction false} ClusterValid(s: State, rest: string)
    requires Valid(s) && !s.nextTokenIsValue
    ensures Valid(Cluster(s, rest).state)
    decreases rest
  {
    if rest != [] {
      var i := FindShort(s.params, rest[0]);
      if i.Some? && Mark(s.params[i.value], false).Some? {
        ClusterValid(s.(params := s.params[i.value := Mark(s.params[i.value], false).value]), rest[1..]);
      }
    }
  }

  lemma TokenValid(s: State, t: string)
    requires Valid(s)
    ensures Valid(Token(s, t).state)
  {
    if !s.nextTokenIsValue && "-" <= t && !("--" <= t) { ClusterValid(s, t[1..]); }
  }

  // ---------- the two spellings ----------

  /** Equal states, except that an idle parser's `lastParameter` does not matter. */
  predicate Same(a: State, b: State) {
    a.params == b.params && a.nextTokenIsValue == b.nextTokenIsValue
    && (a.nextTokenIsValue ==> a.lastParameter == b.lastParameter)
  }

  predicate SameOutcome(a: Outcome, b: Outcome) { Same(a.state, b.state) && a.error == b.error }

  lemma {:induction false} ClusterRespects(a: State, b: State, rest: string)
    requires Same(a, b)
    ensures SameOutcome(Cluster(a, rest), Cluster(b, rest))
    decreases rest
  {
    if rest != [] {
      var i := FindShort(a.params, rest[0]);
      if i.Some? && Mark(a.params[i.value], false).Some? {
        var params := a.params[i.value := Mark(a.params[i.value], false).value];
        ClusterRespects(a.(params := params), b.(params := params), rest[1..]);
      }
    }
  }

  lemma {:induction false} TokensRespect(a: State, b: State, ts: seq<string>)
    requires Same(a, b)
    ensures SameOutcome(Tokens(a, ts), Tokens(b, ts))
    decreases ts
  {
    if ts != [] {
      if "-" <= ts[0] { ClusterRespects(a, b, ts[0][1..]); }
      TokensRespect(Token(a, ts[0]).state, Token(b, ts[0]).state, ts[1..]);
    }
  }

  lemma {:induction false} TokensConcat(s: State, a: seq<string>, b: seq<string>)
    ensures var r := Tokens(s, a);
            Tokens(s, a + b) == if r.error.Some? then r else Tokens(r.state, b)
    decreases a
  {
    if a == [] {
      assert a + b == b;
    } else {
      assert (a + b)[1..] == a[1..] + b;
      TokensConcat(Token(s, a[0]).state, a[1..], b);
    }
  }

  /** The parameter that a short name selects. */
  predicate TakesValue(s: State, c: char) {
    FindShort(s.params, c).Some? && s.params[FindShort(s.params, c).value].kind.StringKind?
  }

  /** The separate tokens for the flags of a cluster. */
  function Separate(flags: string): seq<string> {
    if flags == [] then [] else ["-" + [flags[0]]] + Separate(flags[1..])
  }

  lemma OneNameToken(s: State, c: char)
    requires !s.nextTokenIsValue && c != '-'
    ensures Token(s, "-" + [c]) == Cluster(s, [c])
  {
    assert ("-" + [c])[1..] == [c];
    assert ("-" + [c])[1] == c;
  }

  lemma MarkKeepsNames(s: State, i: nat, p: Param, c: char)
    requires i < |s.params| && p.kind == s.params[i].kind && p.shortName == s.params[i].shortName
    ensures FindShort(s.params[i := p], c) == FindShort(s.params, c)
    ensures TakesValue(s.(params := s.params[i := p]), c) == TakesValue(s, c)
  {
    var a, b := FindShort(s.params[i := p], c), FindShort(s.params, c);
    assert forall j :: 0 <= j < |s.params| ==> MatchesShort(s.params[i := p][j], c) == MatchesShort(s.params[j], c);
    if a.Some? { assert MatchesShort(s.params[i := p][a.value], c); }
    if b.Some? { assert MatchesShort(s.params[i := p][b.value], c); }
  }

  /** Flags in front of a cluster act as tokens of their own. */
  lemma {:induction false} FlagsSeparate(s: State, flags: string, rest: string)
    requires !s.nextTokenIsValue
    requires forall i :: 0 <= i < |flags| ==> flags[i] != '-' && !TakesValue(s, flags[i])
    ensures var r := Tokens(s, Separate(flags));
            && Cluster(s, flags + rest) == (if r.error.Some? then r else Cluster(r.state, rest))
            && (r.error.None? ==> !r.state.nextTokenIsValue && forall c :: TakesValue(r.state, c) == TakesValue(s, c))
    decreases flags
  {
    if flags == [] {
      assert flags + rest == rest;
    } else {
      var c, more := flags[0], flags[1..];
      assert (flags + rest)[0] == c && (flags + rest)[1..] == more + rest;
      OneNameToken(s, c);
      var i := FindShort(s.params, c);
      if i.Some? && Mark(s.params[i.value], false).Some? {
        var p := Mark(s.params[i.value], false).value;
        var s' := s.(params := s.params[i.value := p]);
        assert [c][1..] == [];
        assert Token(s, "-" + [c]) == Done(s');
        forall d ensures TakesValue(s', d) == TakesValue(s, d) { MarkKeepsNames(s, i.value, p, d); }
        FlagsSeparate(s', more, rest);
      }
    }
  }

  lemma TokensOne(s: State, t: string, more: seq<string>)
    ensures Tokens(s, [t] + more) == if Token(s, t).error.Some? then Token(s, t) else Tokens(Token(s, t).state, more)
  {
    assert ([t] + more)[1..] == more;
  }

  /** Attached or separate, a value leads to the same outcome of the rest of the command line. */
  lemma InlineValueThen(s: State, x: char, v: string, more: seq<string>)
    requires !s.nextTokenIsValue && x != '-' && TakesValue(s, x) && v != "" && v != "-" && v != "--"
    ensures Cluster(s, [x] + v).error.None?
    ensures SameOutcome(Tokens(Cluster(s, [x] + v).state, more), Tokens(s, ["-" + [x], v] + more))
  {
    hide Cluster, Token, TakesValue;
    var pair := ["-" + [x], v];
    InlineValue(s, x, v);
    TokensConcat(s, pair, more);
    TokensRespect(Cluster(s, [x] + v).state, Tokens(s, pair).state, more);
  }

  /**
   A cluster of flags that ends in a value-taking option with its value attached leaves the same parameters,
   or fails with the same error, as the flags, the option and the value given as separate tokens.
   */
  lemma ClusterEqualsSeparateTokens(s: State, flags: string, x: char, v: string, more: seq<string>)
    requires !s.nextTokenIsValue
    requires forall i :: 0 <= i < |flags| ==> flags[i] != '-' && !TakesValue(s, flags[i])
    requires x != '-' && TakesValue(s, x)
    requires v != "" && v != "-" && v != "--"
    ensures SameOutcome(Process(s, ["-" + (flags + ([x] + v))] + more),
                        Process(s, Separate(flags) + (["-" + [x], v] + more)))
  {
    hide Cluster, Token, TakesValue, Separate, Tokens;
    var rest := [x] + v;
    ClusterToken(s, flags, rest);
    FlagsSeparate(s, flags, rest);
    var r := Tokens(s, Separate(flags));
    TokensConcat(s, Separate(flags), ["-" + [x], v] + more);
    TokensOne(s, "-" + (flags + rest), more);
    if r.error.None? {
      assert TakesValue(r.state, x) == TakesValue(s, x);
      InlineValueThen(r.state, x, v, more);
    }
  }

  lemma ClusterToken(s: State, flags: string, rest: string)
    requires !s.nextTokenIsValue && |rest| >= 2 && rest[0] != '-' && forall i :: 0 <= i < |flags| ==> flags[i] != '-'
    ensures Token(s, "-" + (flags + rest)) == Cluster(s, flags + rest)
  {
    var t := "-" + (flags + rest);
    assert t[1..] == flags + rest;
    assert t[1] == if flags == [] then rest[0] else flags[0];
  }

  /** The attached and the separate value agree exactly for values other than `-` and `--`. */
  lemma InlineValue(s: State, x: char, v: string)
    requires !s.nextTokenIsValue && x != '-' && TakesValue(s, x) && v != ""
    ensures SameOutcome(Cluster(s, [x] + v), Tokens(s, ["-" + [x], v])) <==> v != "-" && v != "--"
    ensures Cluster(s, [x] + v).error.None? && !Cluster(s, [x] + v).state.nextTokenIsValue
  {
    OneNameToken(s, x);
    var i := FindShort(s.params, x).value;
    var p := Mark(s.params[i], false).value;
    assert ([x] + v)[1..] == v;
    var asked := State(s.params[i := p], Some(i), true);
    assert Token(s, "-" + [x]) == Done(asked);
    assert ["-" + [x], v][1..] == [v] && [v][1..] == [];
    assert Tokens(asked, [v]) == (if v == "-" || v == "--" then Fail(asked, BareSign) else SetValue(asked, v));
    assert s.params[i := p][i := TakeValue(p, v)] == s.params[i := TakeValue(p, v)];
  }

  // ---------- repeated options ----------

  /** The tokens of one option given once for every value. */
  function Repeated(x: char, vs: seq<string>): seq<string> {
    if vs == [] then [] else ["-" + [x], vs[0]] + Repeated(x, vs[1..])
  }

  /** The values of a repeated option queue up behind those it has, in the order given. */
  lemma {:induction false} RepeatedOptionQueues(s: State, x: char, vs: seq<string>)
    requires !s.nextTokenIsValue && x != '-' && TakesValue(s, x)
    requires forall i :: 0 <= i < |vs| ==> vs[i] != "-" && vs[i] != "--"
    ensures var r, i := Tokens(s, Repeated(x, vs)), FindShort(s.params, x).value;
            && r.error.None? && !r.state.nextTokenIsValue && |r.state.params| == |s.params|
            && r.state.params[i].values == s.params[i].values + vs
    decreases vs
  {
    if vs != [] {
      var v := vs[0];
      var i := FindShort(s.params, x).value;
      var p := Mark(s.params[i], false).value;
      OneNameToken(s, x);
      var asked := State(s.params[i := p], Some(i), true);
      assert Token(s, "-" + [x]) == Done(asked);
      var pair := ["-" + [x], v];
      assert pair[1..] == [v] && [v][1..] == [];
      var q := TakeValue(p, v);
      var s' := State(s.params[i := q], Some(i), false);
      assert s.params[i := p][i := q] == s.params[i := q];
      assert Tokens(s, pair) == Done(s') by {
        assert Tokens(asked, [v]) == Done(s');
      }
      TokensConcat(s, pair, Repeated(x, vs[1..]));
      MarkKeepsNames(s, i, q, x);
      RepeatedOptionQueues(s', x, vs[1..]);
      assert s.params[i].values + [v] + vs[1..] == s.params[i].values + vs;
    }
  }

  /** An option o with the value "-": attached it is taken, separate it is an error. */
  lemma InlineSignExample()
    ensures var s := State([Param(StringKind, 'o', None, false, false, [])], None, false);
            && Process(s, ["-o-"]).error.None? && Process(s, ["-o-"]).state.params[0].values == ["-"]
            && Process(s, ["-o", "-"]).error == Some(BareSign)
  {
    var s := State([Param(StringKind, 'o', None, false, false, [])], None, false);
    var p := s.params[0].(present := true);
    assert FindShort(s.params, 'o') == Some(0) && Mark(s.params[0], false) == Some(p);
    assert Token(s, "-o-") == Cluster(s, "o-") by { assert "-o-"[1..] == "o-"; }
    assert Cluster(s, "o-") == Done(s.(params := [TakeValue(p, "-")])) by { assert "o-"[1..] == "-"; }
    assert Token(s, "-o") == Cluster(s, "o") by { assert "-o"[1..] == "o"; }
    assert Cluster(s, "o") == Done(State([p], Some(0), true));
    assert Token(State([p], Some(0), true), "-") == Fail(State([p], Some(0), true), BareSign);
    assert ["-o-"][1..] == [] && ["-o", "-"][1..] == ["-"];
  }
}
