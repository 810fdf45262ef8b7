/** The command line parser: options are taken out of argv in place. */
module CommandLine {

  type Options = map<string, string>

  /** `str.rfind("--list", 0) == 0 || str == "-l" || str == "-t"` */
  predicate IsListFlag(token: string) {
    "--list" <= token || token == "-l" || token == "-t"
  }

  // --------------------------------------------- the left-to-right specification

  /** Every option is followed by a value.  The source reads past the end otherwise. */
  predicate OptionsHaveValues(tokens: seq<string>, options: set<string>) {
    tokens != [] ==>
      if tokens[0] in options then |tokens| >= 2 && OptionsHaveValues(tokens[2..], options)
      else OptionsHaveValues(tokens[1..], options)
  }

  /** The tokens outside option/value pairs. */
  function Kept(tokens: seq<string>, options: set<string>): seq<string> {
    if tokens == [] then []
    else if tokens[0] in options then if |tokens| >= 2 then Kept(tokens[2..], options) else []
    else [tokens[0]] + Kept(tokens[1..], options)
  }

  /** The option values after reading the tokens from left to right. */
  function Assigned(tokens: seq<string>, arguments: Options): Options {
    if |tokens| == 0 then arguments
    else if tokens[0] in arguments then
      if |tokens| >= 2 then Assigned(tokens[2..], arguments[tokens[0] := tokens[1]]) else arguments
    else Assigned(tokens[1..], arguments)
  }

  /** Whether a token in option or free position asks for the list. */
  predicate ListAsked(tokens: seq<string>, options: set<string>) {
    tokens != [] && (IsListFlag(tokens[0]) ||
      if tokens[0] in options then |tokens| >= 2 && ListAsked(tokens[2..], options)
      else ListAsked(tokens[1..], options))
  }

  class CommandLineParser {
    var arguments: Options
    var listRequested: bool

    constructor ()
      ensures arguments == map[] && !listRequested
    {
      arguments, listRequested := map[], false;
    }

    method AddArgument(name: string, defaultValue: string)
      modifies this
      ensures arguments == old(arguments)[name := defaultValue] && listRequested == old(listRequested)
    {
      arguments := arguments[name := defaultValue];
    }

    /** `argc` is returned instead of being updated through a pointer.  The caller must
        give every option a value, and not name the program itself like an option if an
        option comes first: the step back after removing it would look at argv[-1]. */
    method Parse(argv: array<string>, argc: nat) returns (newArgc: nat)
      requires argc <= argv.Length
      requires argc > 0 ==> OptionsHaveValues(argv[1..argc], arguments.Keys)
      requires argc > 1 && argv[1] in arguments ==> argv[0] !in arguments
      modifies this, argv
      ensures newArgc <= argc
      ensures Outcome(argv[..newArgc], arguments, listRequested)
           == Wanted(old(argv[..argc]), old(arguments), old(listRequested))
    {
      hide Parsing, Kept, Assigned, ListAsked, OptionsHaveValues, IsListFlag;
      newArgc := argc;
      var i: int := 1;
      ghost var line, options := argv[..argc], arguments.Keys;
      ghost var wanted := Wanted(line, arguments, listRequested);
      if argc > 0 {
        assert line[1..] == argv[1..argc];
        Started(line, arguments, listRequested);
      }
      while i < newArgc
        invariant 0 <= i <= newArgc <= argc || argc == newArgc == 0
        invariant argc == 0 ==> wanted == Outcome([], arguments, listRequested)
        invariant argc > 0 ==> Parsing(argv[..newArgc], i, arguments, listRequested, line, options, wanted)
        decreases newArgc - i
      {
        var str := argv[i];
        var tokensToRemove := 0;
        ghost var before, wasListed, oldArguments := argv[..newArgc], listRequested, arguments;
        StepPossible(before, i, arguments, listRequested, line, options, wanted);
        if IsListFlag(str) {
          listRequested := true;
        }
        if str in arguments {
          tokensToRemove := tokensToRemove + 1;
          arguments := arguments[str := argv[i + 1]];
          tokensToRemove := tokensToRemove + 1;
          RemovedPair(before, i, oldArguments, wasListed, line, options, wanted);
        } else {
          KeptToken(before, i, oldArguments, wasListed, line, options, wanted);
        }
        Shift(argv, i, newArgc, tokensToRemove);
        newArgc := newArgc - tokensToRemove;
        i := i - tokensToRemove;
        i := i + 1;
      }
      if argc > 0 { Finished(argv[..newArgc], i, arguments, listRequested, line, options, wanted); }
    }

    /** The inner loop: tokens from `i` on move down over the removed ones. */
    static method Shift(argv: array<string>, i: nat, argc: nat, tokensToRemove: nat)
      requires i + tokensToRemove <= argc <= argv.Length
      modifies argv
      ensures argv[..argc - tokensToRemove] == old(argv[..argc])[..i] + old(argv[..argc])[i + tokensToRemove..]
    {
      var j := i;
      while j < argc - tokensToRemove
        invariant i <= j <= argc - tokensToRemove
        invariant forall k | 0 <= k < argc ::
          argv[k] == old(argv[if i <= k < j then k + tokensToRemove else k])
      {
        argv[j] := argv[j + tokensToRemove];
        j := j + 1;
      }
    }
  }

  /** What parsing leaves behind. */
  datatype Outcome = Outcome(kept: seq<string>, arguments: Options, list: bool)

  /** The first position from `i` on that holds a token, not the program name. */
  function Next(i: nat): nat { if i == 0 then 1 else i }

  /** The outcome the specification asks for on a whole command line. */
  function Wanted(line: seq<string>, arguments: Options, listed: bool): Outcome {
    if line == [] then Outcome([], arguments, listed)
    else Outcome([line[0]] + Kept(line[1..], arguments.Keys), Assigned(line[1..], arguments),
            listed || ListAsked(line[1..], arguments.Keys) || ProgramAsked(line, arguments.Keys))
  }

  /** argv[0] is looked at when the first token is an option: after its removal the
      index steps back onto the program name. */
  predicate ProgramAsked(line: seq<string>, options: set<string>) {
    |line| > 1 && line[1] in options && IsListFlag(line[0])
  }

  /** Between two iterations: what is before `i` is settled, and the specification
      applied to the rest completes the wanted outcome. */
  ghost predicate Parsing(now: seq<string>, i: nat, arguments: Options, listed: bool,
                          line: seq<string>, options: set<string>, wanted: Outcome) {
    && i <= |now| && 0 < |now| <= |line| && line != [] && now[0] == line[0] && arguments.Keys == options
    && (|line| > 1 && line[1] in options ==> line[0] !in options)
    && (|line| > 1 && line[1] !in options ==> |now| > 1 && now[1] == line[1])
    && (i == 0 ==> |line| > 1 && line[1] in options)
    && (forall k | 1 <= k < i :: now[k] !in options && (IsListFlag(now[k]) ==> listed))
    && OptionsHaveValues(now[Next(i)..], options)
    && wanted.kept == now[..Next(i)] + Kept(now[Next(i)..], options)
    && wanted.arguments == Assigned(now[Next(i)..], arguments)
    && (wanted.list <==> listed || ListAsked(now[Next(i)..], options) || ProgramAsked(line, options))
    && (ProgramAsked(line, options) ==> listed || i == 0 || (i == 1 < |now| && now[1] in options))
  }

  lemma Started(line: seq<string>, arguments: Options, listed: bool)
    requires line != [] && OptionsHaveValues(line[1..], arguments.Keys)
    requires |line| > 1 && line[1] in arguments ==> line[0] !in arguments
    ensures Parsing(line, 1, arguments, listed, line, arguments.Keys, Wanted(line, arguments, listed))
  {
  }

  lemma Finished(now: seq<string>, i: nat, arguments: Options, listed: bool,
                 line: seq<string>, options: set<string>, wanted: Outcome)
    requires i >= |now| && Parsing(now, i, arguments, listed, line, options, wanted)
    ensures wanted == Outcome(now, arguments, listed) && now != []
  {
    assert now[Next(i)..] == [] && now[..Next(i)] == now;
  }

  lemma StepPossible(now: seq<string>, i: nat, arguments: Options, listed: bool,
                     line: seq<string>, options: set<string>, wanted: Outcome)
    requires i < |now| && Parsing(now, i, arguments, listed, line, options, wanted)
    ensures now[i] in arguments ==> i > 0 && i + 1 < |now|
  {
    if i > 0 { assert now[i..][0] == now[i]; }
  }

  lemma KeptToken(now: seq<string>, i: nat, arguments: Options, listed: bool,
                  line: seq<string>, options: set<string>, wanted: Outcome)
    requires i < |now| && Parsing(now, i, arguments, listed, line, options, wanted)
    requires now[i] !in arguments
    ensures Parsing(now[..i] + now[i..], i + 1, arguments, listed || IsListFlag(now[i]), line, options, wanted)
  {
    hide IsListFlag;
    assert now[..i] + now[i..] == now;
    if i > 0 {
      assert now[i..][0] == now[i] && now[i..][1..] == now[i + 1..];
      assert now[..i + 1] == now[..i] + [now[i]];
    }
  }

  lemma RemovedPair(now: seq<string>, i: nat, arguments: Options, listed: bool,
                    line: seq<string>, options: set<string>, wanted: Outcome)
    requires 0 < i && i + 1 < |now| && Parsing(now, i, arguments, listed, line, options, wanted)
    requires now[i] in arguments
    ensures Parsing(now[..i] + now[i + 2..], i - 1, arguments[now[i] := now[i + 1]],
                    listed || IsListFlag(now[i]), line, options, wanted)
  {
    hide IsListFlag;
    var rest, after := now[i..], now[..i] + now[i + 2..];
    assert rest[0] == now[i] && rest[1] == now[i + 1] && rest[2..] == now[i + 2..];
    assert arguments[now[i] := now[i + 1]].Keys == options;
    if i == 1 {
      assert after[1..] == rest[2..] && after[..1] == now[..1];
    } else {
      assert after[i - 1..][0] == now[i - 1] && after[i - 1..][1..] == rest[2..];
      assert after[..i - 1] + [now[i - 1]] == now[..i];
    }
  }

  // ----------------------------------------------- what the specification means

  /** The option/value pairs, in order. */
  function Pairs(tokens: seq<string>, options: set<string>): seq<(string, string)> {
    if tokens == [] then []
    else if tokens[0] in options then
      if |tokens| >= 2 then [(tokens[0], tokens[1])] + Pairs(tokens[2..], options) else []
    else Pairs(tokens[1..], options)
  }

  /** `tokens` is made of the tokens of `kept` and the pairs of `pairs`, each in its order. */
  predicate Interleaves(tokens: seq<string>, kept: seq<string>, pairs: seq<(string, string)>) {
    if tokens == [] then kept == [] && pairs == []
    else
      || (kept != [] && tokens[0] == kept[0] && Interleaves(tokens[1..], kept[1..], pairs))
      || (pairs != [] && |tokens| >= 2 && (tokens[0], tokens[1]) == pairs[0] && Interleaves(tokens[2..], kept, pairs[1..]))
  }

  /** The one way to take a command line apart into tokens that are no options and pairs
      that start with an option. */
  lemma {:induction false} KeptAndPairs(tokens: seq<string>, options: set<string>,
                                        kept: seq<string>, pairs: seq<(string, string)>)
    requires OptionsHaveValues(tokens, options)
    ensures kept == Kept(tokens, options) && pairs == Pairs(tokens, options) <==>
      && Interleaves(tokens, kept, pairs)
      && (forall k | 0 <= k < |kept| :: kept[k] !in options)
      && (forall k | 0 <= k < |pairs| :: pairs[k].0 in options)
  {
    if tokens != [] {
      if tokens[0] in options {
        KeptAndPairs(tokens[2..], options, Kept(tokens[2..], options), Pairs(tokens[2..], options));
        if pairs != [] {
          assert pairs == [pairs[0]] + pairs[1..];
          KeptAndPairs(tokens[2..], options, kept, pairs[1..]);
        }
      } else {
        KeptAndPairs(tokens[1..], options, Kept(tokens[1..], options), Pairs(tokens[1..], options));
        if kept != [] {
          assert kept == [kept[0]] + kept[1..];
          KeptAndPairs(tokens[1..], options, kept[1..], pairs);
        }
      }
    }
  }

  /** The value of the last pair for `option`, or `previous` if there is none. */
  function LastValue(pairs: seq<(string, string)>, option: string, previous: string): string {
    if pairs == [] then previous
    else
      var last := pairs[|pairs| - 1];
      if last.0 == option then last.1 else LastValue(pairs[..|pairs| - 1], option, previous)
  }

  /** An option ends up with the value of its last pair, or keeps the one it had; no
      option appears or disappears. */
  lemma LastValueWins(tokens: seq<string>, arguments: Options, option: string)
    requires OptionsHaveValues(tokens, arguments.Keys) && option in arguments
    ensures Assigned(tokens, arguments).Keys == arguments.Keys
    ensures var pairs, value := Pairs(tokens, arguments.Keys), Assigned(tokens, arguments)[option];
      && (forall k | 0 <= k < |pairs| && pairs[k].0 == option && (forall j | k < j < |pairs| :: pairs[j].0 != option) ::
            value == pairs[k].1)
      && ((forall k | 0 <= k < |pairs| :: pairs[k].0 != option) ==> value == arguments[option])
  {
    AssignedIsLast(tokens, arguments, option);
    LastValueIs(Pairs(tokens, arguments.Keys), option, arguments[option]);
  }

  lemma {:induction false} LastValueIs(pairs: seq<(string, string)>, option: string, previous: string)
    ensures var value := LastValue(pairs, option, previous);
      && (forall k | 0 <= k < |pairs| && pairs[k].0 == option && (forall j | k < j < |pairs| :: pairs[j].0 != option) ::
            value == pairs[k].1)
      && ((forall k | 0 <= k < |pairs| :: pairs[k].0 != option) ==> value == previous)
  {
    if pairs != [] && pairs[|pairs| - 1].0 != option {
      LastValueIs(pairs[..|pairs| - 1], option, previous);
    }
  }

  lemma {:induction false} AssignedIsLast(tokens: seq<string>, arguments: Options, option: string)
    requires OptionsHaveValues(tokens, arguments.Keys) && option in arguments
    ensures Assigned(tokens, arguments).Keys == arguments.Keys
    ensures Assigned(tokens, arguments)[option]
         == LastValue(Pairs(tokens, arguments.Keys), option, arguments[option])
  {
    if tokens != [] {
      if tokens[0] in arguments {
        var next := arguments[tokens[0] := tokens[1]];
        assert next.Keys == arguments.Keys;
        AssignedIsLast(tokens[2..], next, option);
        FirstPair((tokens[0], tokens[1]), Pairs(tokens[2..], arguments.Keys), option, arguments[option]);
      } else {
        AssignedIsLast(tokens[1..], arguments, option);
      }
    }
  }

  lemma {:induction false} FirstPair(p: (string, string), rest: seq<(string, string)>, option: string, previous: string)
    ensures LastValue([p] + rest, option, previous)
         == LastValue(rest, option, if p.0 == option then p.1 else previous)
    decreases |rest|
  {
    if rest == [] {
      assert [p] + rest == [p];
    } else {
      var front := rest[..|rest| - 1];
      FirstPair(p, front, option, previous);
      assert ([p] + rest)[..|rest|] == [p] + front;
    }
  }

  /** Parsing what is left finds nothing more to take out. */
  lemma {:induction false} ParsingAgain(tokens: seq<string>, arguments: Options)
    ensures var kept := Kept(tokens, arguments.Keys);
      && OptionsHaveValues(kept, arguments.Keys)
      && Kept(kept, arguments.Keys) == kept && Assigned(kept, arguments) == arguments
  {
    if tokens != [] {
      if tokens[0] in arguments {
        if |tokens| >= 2 { ParsingAgain(tokens[2..], arguments); }
      } else {
        ParsingAgain(tokens[1..], arguments);
        var rest := Kept(tokens[1..], arguments.Keys);
        assert ([tokens[0]] + rest)[1..] == rest;
      }
    }
  }

  /** When the list is asked for: by a surviving token or an option that starts with
      "--list" or is "-l" or "-t", not by a value; and by the program's own name if the
      first token is an option. */
  lemma ListRequestedIff(line: seq<string>, arguments: Options, listed: bool)
    requires line != [] && OptionsHaveValues(line[1..], arguments.Keys)
    ensures var asks := (token: string) =>
              (|token| >= 6 && token[..6] == "--list") || token == "-l" || token == "-t";
            var kept, pairs := Kept(line[1..], arguments.Keys), Pairs(line[1..], arguments.Keys);
      Wanted(line, arguments, listed).list <==>
      || listed
      || (exists k :: 0 <= k < |kept| && asks(kept[k]))
      || (exists k :: 0 <= k < |pairs| && asks(pairs[k].0))
      || (|line| > 1 && line[1] in arguments && asks(line[0]))
  {
    hide IsListFlag;
    forall token: string
      ensures IsListFlag(token) <==> (|token| >= 6 && token[..6] == "--list") || token == "-l" || token == "-t"
    {
      ListFlagIs(token);
    }
    ListAskedIff(line[1..], arguments.Keys);
  }

  lemma ListFlagIs(token: string)
    ensures IsListFlag(token) <==> (|token| >= 6 && token[..6] == "--list") || token == "-l" || token == "-t"
  {
  }

  ghost predicate SomeFlag(tokens: seq<string>) { exists k :: 0 <= k < |tokens| && IsListFlag(tokens[k]) }

  ghost predicate SomeFlaggedPair(pairs: seq<(string, string)>) { exists k :: 0 <= k < |pairs| && IsListFlag(pairs[k].0) }

  lemma {:induction false} ListAskedIff(tokens: seq<string>, options: set<string>)
    requires OptionsHaveValues(tokens, options)
    ensures ListAsked(tokens, options) <==>
      SomeFlag(Kept(tokens, options)) || SomeFlaggedPair(Pairs(tokens, options))
  {
    hide IsListFlag, SomeFlag, SomeFlaggedPair;
    if tokens == [] {
      NoFlag();
    } else if tokens[0] in options {
      ListAskedIff(tokens[2..], options);
      FlaggedPair((tokens[0], tokens[1]), Pairs(tokens[2..], options));
    } else {
      ListAskedIff(tokens[1..], options);
      FlaggedToken(tokens[0], Kept(tokens[1..], options));
    }
  }

  lemma NoFlag()
    ensures !SomeFlag([]) && !SomeFlaggedPair([])
  {
  }

  lemma FlaggedToken(token: string, rest: seq<string>)
    ensures SomeFlag([token] + rest) <==> IsListFlag(token) || SomeFlag(rest)
  {
    hide IsListFlag;
    var all := [token] + rest;
    assert all[0] == token;
    forall k | 0 <= k < |rest| ensures IsListFlag(rest[k]) == IsListFlag(all[k + 1]) {}
  }

  lemma FlaggedPair(pair: (string, string), rest: seq<(string, string)>)
    ensures SomeFlaggedPair([pair] + rest) <==> IsListFlag(pair.0) || SomeFlaggedPair(rest)
  {
    hide IsListFlag;
    var all := [pair] + rest;
    assert all[0] == pair;
    forall k | 0 <= k < |rest| ensures IsListFlag(rest[k].0) == IsListFlag(all[k + 1].0) {}
  }

  /** The rest of the outcome: the program's name stays first and in place, the survivors
      follow, and the options are those of the tokens after it. */
  lemma OutcomeKeepsProgram(line: seq<string>, arguments: Options, listed: bool)
    requires line != [] && OptionsHaveValues(line[1..], arguments.Keys)
    ensures var wanted := Wanted(line, arguments, listed);
      && wanted.kept != [] && wanted.kept[0] == line[0]
      && (forall k | 1 <= k < |wanted.kept| :: wanted.kept[k] !in arguments)
      && Interleaves(line[1..], wanted.kept[1..], Pairs(line[1..], arguments.Keys))
      && wanted.arguments == Assigned(line[1..], arguments)
  {
    var kept := Kept(line[1..], arguments.Keys);
    KeptAndPairs(line[1..], arguments.Keys, kept, Pairs(line[1..], arguments.Keys));
    assert ([line[0]] + kept)[1..] == kept;
  }
}
