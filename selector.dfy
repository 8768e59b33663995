/**
 * The selection script: list the presentations under `slides/`, resolve
 * which one to run from a name hint or an interactive prompt, and hand it
 * to the package manager as `pnpm --filter <name> <command>`.
 */
module Selector {
  import opened Wrappers
  import opened JsText
  import opened StringOrder
  import opened Listing
  import opened Search

  /** The presentations offered: the directory entries' names, sorted. */
  function Available(entries: seq<Entry>): seq<string> {
    Sort(DirectoryNames(entries))
  }

  /** The command to run: the first argument, or `dev` when it is missing or empty. */
  function CommandOf(args: seq<string>): (command: string)
    ensures command != ""
    ensures |args| > 0 && args[0] != "" ==> command == args[0]
    ensures |args| == 0 || args[0] == "" ==> command == "dev"
  {
    if |args| > 0 && args[0] != "" then args[0] else "dev"
  }

  /** The project hint: the second argument, when it is there and not empty. */
  function HintOf(args: seq<string>): (hint: Option<string>)
    ensures hint.Some? <==> |args| > 1 && args[1] != ""
    ensures hint.Some? ==> hint.value == args[1] && hint.value != ""
  {
    if |args| > 1 && args[1] != "" then Some(args[1]) else None
  }

  /** `name.toLowerCase().includes(query.toLowerCase())`. */
  predicate NameMatches(name: string, query: string) {
    Contains(Lower(name), Lower(query))
  }

  /** The hint test: the exact name, or a case-insensitive part of it. */
  predicate HintMatches(name: string, hint: string) {
    name == hint || NameMatches(name, hint)
  }

  /** The arguments passed to `pnpm`. */
  function CommandArgs(presentation: string, command: string): seq<string> {
    ["--filter", presentation, command]
  }

  // ---------------------------------------------------------------------
  // The interactive prompt
  // ---------------------------------------------------------------------

  /** Where the prompt loop stands after an input. */
  datatype PromptState = Prompting | Matched(name: string) | Cancelled

  /** The name rule: the first name containing the input case-insensitively, if that name is truthy. */
  function ByName(p: seq<string>, input: string): PromptState {
    match FirstIndex(p, n => NameMatches(n, input))
    case Some(i) => if p[i] != "" then Matched(p[i]) else Prompting
    case None => Prompting
  }

  /**
   * One pass of the prompt loop on one answer (`None` when the prompt
   * returns null): cancel on an empty answer, else a number 1..N picks by
   * position, else the name rule, else prompt again.
   */
  function Step(p: seq<string>, input: Option<string>): (s: PromptState)
    ensures s.Cancelled? <==> input.None? || input.value == ""
    ensures s.Matched? ==> s.name in p
  {
    if input.None? || input.value == "" then Cancelled
    else
      var num := ParseInt(input.value);
      if num.Num? && 1 <= num.value <= |p| then Matched(p[num.value - 1])
      else ByName(p, input.value)
  }

  /**
   * The prompt loop fed the answers `inputs` in turn: the state it ends in
   * and how many answers it read. It is still `Prompting` only when every
   * answer was rejected.
   */
  function Interact(p: seq<string>, inputs: seq<Option<string>>): (PromptState, nat)
    decreases |inputs|
  {
    if inputs == [] then (Prompting, 0)
    else
      var s := Step(p, inputs[0]);
      if s.Prompting? then (Interact(p, inputs[1..]).0, Interact(p, inputs[1..]).1 + 1)
      else (s, 1)
  }

  /** What `selectPresentation` ends with. */
  datatype Selection = Chosen(name: string) | Quit(code: nat) | NeedsInput

  /** `selectPresentation`: no presentations exits 1, one is taken as is, more are prompted for. */
  function SelectionOf(p: seq<string>, inputs: seq<Option<string>>): (Selection, nat) {
    if |p| == 0 then (Quit(1), 0)
    else if |p| == 1 then (Chosen(p[0]), 0)
    else
      var (s, n) := Interact(p, inputs);
      match s
      case Matched(name) => (Chosen(name), n)
      case Cancelled => (Quit(0), n)
      case Prompting => (NeedsInput, n)
  }

  /**
   * The `while (true)` loop of `selectPresentation`, reading the answers
   * one by one; it returns how many it read.
   */
  method SelectPresentation(p: seq<string>, inputs: seq<Option<string>>) returns (sel: Selection, consumed: nat)
    ensures (sel, consumed) == SelectionOf(p, inputs)
  {
    if |p| == 0 {
      return Quit(1), 0;
    }
    if |p| == 1 {
      return Chosen(p[0]), 0;
    }
    consumed := 0;
    while consumed < |inputs|
      invariant consumed <= |inputs|
      invariant Interact(p, inputs)
             == (Interact(p, inputs[consumed..]).0, Interact(p, inputs[consumed..]).1 + consumed)
    {
      var s := Step(p, inputs[consumed]);
      assert inputs[consumed..][1..] == inputs[consumed + 1..];
      consumed := consumed + 1;
      match s {
        case Cancelled => return Quit(0), consumed;
        case Matched(name) => return Chosen(name), consumed;
        case Prompting =>
      }
    }
    assert inputs[consumed..] == [];
    return NeedsInput, consumed;
  }

  // ---------------------------------------------------------------------
  // The whole script
  // ---------------------------------------------------------------------

  /** How a run of the script ends. */
  datatype Outcome =
    | Spawn(argv: seq<string>)           // `pnpm` runs with these arguments; its exit code becomes the script's
    | Exit(code: nat)
    | NotFound(listed: seq<string>)      // the hint matched nothing: every name is listed, then exit 1
    | AwaitingInput                      // the scripted answers ran out while prompting

  /**
   * `main` with arguments `args`, `slides/` listed as `slides` (`None` when
   * reading it fails) and the prompt's answers `inputs`.
   */
  function Dispatch(args: seq<string>, slides: Option<seq<Entry>>, inputs: seq<Option<string>>): Outcome {
    match slides
    case None => Exit(1)
    case Some(entries) =>
      var p := Available(entries);
      var command := CommandOf(args);
      match HintOf(args)
      case Some(hint) =>
        (match FirstIndex(p, n => HintMatches(n, hint))
         case Some(i) => if p[i] != "" then Spawn(CommandArgs(p[i], command)) else NotFound(p)
         case None => NotFound(p))
      case None =>
        match SelectionOf(p, inputs).0
        case Chosen(name) => Spawn(CommandArgs(name, command))
        case Quit(code) => Exit(code)
        case NeedsInput => AwaitingInput
  }

  // ---------------------------------------------------------------------
  // Properties
  // ---------------------------------------------------------------------

  /**
   * The offered list is sorted, is a permutation of the directory names, and
   * holds a name exactly when some directory entry carries it.
   */
  lemma AvailableIsSortedDirectories(entries: seq<Entry>, n: string)
    ensures Sorted(Available(entries))
    ensures multiset(Available(entries)) == multiset(DirectoryNames(entries))
    ensures n in Available(entries)
        <==> exists i :: 0 <= i < |entries| && entries[i].isDirectory && entries[i].name == n
  {
    DirectoryNamesMembers(entries, n);
    assert n in Available(entries) <==> n in multiset(Available(entries));
    assert n in DirectoryNames(entries) <==> n in multiset(DirectoryNames(entries));
  }

  /** The equality test in the hint rule adds nothing to the substring test. */
  lemma HintEqualitySubsumed(name: string, hint: string)
    ensures HintMatches(name, hint) <==> NameMatches(name, hint)
  {
    if name == hint {
      assert Lower(hint) <= Lower(name);
    }
  }

  /** A non-empty query never matches the empty name, so a found match is always truthy. */
  lemma MatchIsTruthy(p: seq<string>, query: string, i: nat)
    requires query != ""
    requires i < |p| && (NameMatches(p[i], query) || HintMatches(p[i], query))
    ensures p[i] != ""
  {
    HintEqualitySubsumed(p[i], query);
    ContainsNonEmpty(Lower(p[i]), Lower(query));
  }

  /**
   * With a hint, the first sorted name matching it is run; when none matches
   * (whatever the number of presentations, none and one included) every name
   * is listed and the script exits 1. The prompt is never used.
   */
  lemma HintResolves(args: seq<string>, entries: seq<Entry>, inputs: seq<Option<string>>)
    requires HintOf(args).Some?
    ensures Dispatch(args, Some(entries), inputs) == Dispatch(args, Some(entries), [])
    ensures Dispatch(args, Some(entries), inputs).Spawn? || Dispatch(args, Some(entries), inputs).NotFound?
    ensures Dispatch(args, Some(entries), inputs).NotFound?
        <==> forall j :: 0 <= j < |Available(entries)| ==> !NameMatches(Available(entries)[j], args[1])
    ensures Dispatch(args, Some(entries), inputs).NotFound? ==> Dispatch(args, Some(entries), inputs).listed == Available(entries)
    ensures Dispatch(args, Some(entries), inputs).Spawn? ==>
      exists i :: 0 <= i < |Available(entries)|
        && Dispatch(args, Some(entries), inputs).argv == CommandArgs(Available(entries)[i], CommandOf(args))
        && NameMatches(Available(entries)[i], args[1])
        && forall j :: 0 <= j < i ==> !NameMatches(Available(entries)[j], args[1])
  {
    var p := Available(entries);
    var hint := args[1];
    forall j | 0 <= j < |p| ensures HintMatches(p[j], hint) <==> NameMatches(p[j], hint) {
      HintEqualitySubsumed(p[j], hint);
    }
    match FirstIndex(p, n => HintMatches(n, hint))
    case Some(i) =>
      MatchIsTruthy(p, hint, i);
    case None =>
  }

  /**
   * A hint is resolved even when there is a single presentation: one that
   * does not match it is not run, and the script lists it and exits 1.
   */
  lemma HintOverridesSingle(args: seq<string>, entries: seq<Entry>, inputs: seq<Option<string>>)
    requires HintOf(args).Some? && |Available(entries)| == 1
    requires !NameMatches(Available(entries)[0], args[1])
    ensures Dispatch(args, Some(entries), inputs) == NotFound(Available(entries))
  {
    HintResolves(args, entries, inputs);
  }

  /** With a hint, the first sorted name containing it is run. */
  lemma HintRunsFirstMatch(args: seq<string>, entries: seq<Entry>, inputs: seq<Option<string>>, i: nat)
    requires HintOf(args).Some?
    requires i < |Available(entries)| && NameMatches(Available(entries)[i], args[1])
    requires forall j :: 0 <= j < i ==> !NameMatches(Available(entries)[j], args[1])
    ensures Dispatch(args, Some(entries), inputs) == Spawn(CommandArgs(Available(entries)[i], CommandOf(args)))
  {
    var p := Available(entries);
    var hint := args[1];
    forall j | 0 <= j <= i ensures HintMatches(p[j], hint) <==> NameMatches(p[j], hint) {
      HintEqualitySubsumed(p[j], hint);
    }
    FirstIndexIs(p, n => HintMatches(n, hint), i);
    MatchIsTruthy(p, hint, i);
  }

  /** A hint that is part of a name picks it without prompting: `bet` picks `beta`. */
  lemma HintPicksBeta(entries: seq<Entry>, inputs: seq<Option<string>>)
    requires Available(entries) == ["alpha", "beta", "gamma"]
    ensures Dispatch(["dev", "bet"], Some(entries), inputs) == Spawn(["--filter", "beta", "dev"])
  {
    BetMatchesBetaOnly();
    HintRunsFirstMatch(["dev", "bet"], entries, inputs, 1);
  }

  /** A hint that matches nothing lists every name: `zzz` against `alpha` and `beta`. */
  lemma HintMatchesNothing(entries: seq<Entry>, inputs: seq<Option<string>>)
    requires Available(entries) == ["alpha", "beta"]
    ensures Dispatch(["dev", "zzz"], Some(entries), inputs) == NotFound(["alpha", "beta"])
  {
    NoMatchWithout("alpha", "zzz", 'z');
    NoMatchWithout("beta", "zzz", 'z');
    HintResolves(["dev", "zzz"], entries, inputs);
  }

  /** Without a hint and with no presentations, the script exits 1 without prompting. */
  lemma NoHintNoPresentations(args: seq<string>, entries: seq<Entry>, inputs: seq<Option<string>>)
    requires HintOf(args).None? && Available(entries) == []
    ensures Dispatch(args, Some(entries), inputs) == Exit(1)
  {
  }

  /** Without a hint, a single presentation is run without prompting. */
  lemma NoHintSinglePresentation(args: seq<string>, entries: seq<Entry>, inputs: seq<Option<string>>)
    requires HintOf(args).None? && |Available(entries)| == 1
    ensures Dispatch(args, Some(entries), inputs) == Spawn(["--filter", Available(entries)[0], CommandOf(args)])
  {
  }

  /** Whatever happens, a spawned `pnpm` gets `--filter`, an offered name and the command. */
  lemma SpawnShape(args: seq<string>, entries: seq<Entry>, inputs: seq<Option<string>>)
    requires Dispatch(args, Some(entries), inputs).Spawn?
    ensures |Dispatch(args, Some(entries), inputs).argv| == 3
    ensures Dispatch(args, Some(entries), inputs).argv[0] == "--filter"
    ensures Dispatch(args, Some(entries), inputs).argv[1] in Available(entries)
    ensures Dispatch(args, Some(entries), inputs).argv[2] == CommandOf(args)
  {
    var p := Available(entries);
    if HintOf(args).Some? {
      HintResolves(args, entries, inputs);
    } else if |p| > 1 {
      InteractOutcome(p, inputs);
      assert Dispatch(args, Some(entries), inputs).argv == CommandArgs(Interact(p, inputs).0.name, CommandOf(args));
    }
  }

  /**
   * The prompt loop reads answers until one is decisive: every answer before
   * the last one read was rejected, and the last one decided the state. It
   * keeps prompting only when all answers were rejected.
   */
  lemma {:induction false} InteractOutcome(p: seq<string>, inputs: seq<Option<string>>)
    ensures Interact(p, inputs).1 <= |inputs|
    ensures forall j :: 0 <= j < Interact(p, inputs).1 - 1 ==> Step(p, inputs[j]).Prompting?
    ensures Interact(p, inputs).0.Prompting? ==> Interact(p, inputs).1 == |inputs|
    ensures !Interact(p, inputs).0.Prompting?
        ==> Interact(p, inputs).1 > 0 && Step(p, inputs[Interact(p, inputs).1 - 1]) == Interact(p, inputs).0
    ensures Interact(p, inputs).0.Matched? ==> Interact(p, inputs).0.name in p
    decreases |inputs|
  {
    if inputs != [] && Step(p, inputs[0]).Prompting? {
      InteractOutcome(p, inputs[1..]);
      var n := Interact(p, inputs[1..]).1;
      forall j | 0 <= j < n ensures Step(p, inputs[j]).Prompting? {
        if j > 0 {
          assert inputs[j] == inputs[1..][j - 1];
        }
      }
      if !Interact(p, inputs[1..]).0.Prompting? {
        assert inputs[n] == inputs[1..][n - 1];
      }
    }
  }

  /** A number 1..N, after optional whitespace and sign and before any non-digit, picks by position. */
  lemma StepByNumber(p: seq<string>, ws: string, sign: string, k: nat, rest: string)
    requires AllWhiteSpace(ws) && (sign == "" || sign == "+")
    requires 1 <= k <= |p|
    requires rest == [] || !IsDigit(rest[0])
    ensures Step(p, Some(ws + sign + FormatNat(k) + rest)) == Matched(p[k - 1])
  {
    DigitsValueOfFormat(k);
    ParseIntDigits(ws, sign, FormatNat(k), rest);
    assert ws + sign + FormatNat(k) + rest != "" by {
      assert |FormatNat(k)| > 0;
    }
  }

  /** `"2x"` and `" +2"` both pick the second presentation. */
  lemma StepExamples(p: seq<string>)
    requires |p| >= 2
    ensures Step(p, Some("2x")) == Matched(p[1])
    ensures Step(p, Some(" +2")) == Matched(p[1])
  {
    assert FormatNat(2) == "2";
    StepByNumber(p, "", "", 2, "x");
    assert "" + "" + "2" + "x" == "2x";
    StepByNumber(p, " ", "+", 2, "");
    assert " " + "+" + "2" + "" == " +2";
  }

  /** A query none of whose characters occurs in a name is not part of it. */
  lemma NoMatchWithout(name: string, query: string, c: char)
    requires query != [] && query[0] == c && !('A' <= c <= 'Z') && c !in Lower(name)
    ensures !NameMatches(name, query)
  {
    var s, q := Lower(name), Lower(query);
    ContainsIffOccurs(s, q);
    forall i ensures !OccursAt(s, q, i) {
      if 0 <= i <= |s| - |q| {
        assert s[i..i + |q|][0] == s[i];
        assert s[i] in s;
      }
    }
  }

  /** In the example list, `bet` is part of `beta` and not of `alpha`. */
  lemma BetMatchesBetaOnly()
    ensures !NameMatches("alpha", "bet") && NameMatches("beta", "bet")
  {
    NoMatchWithout("alpha", "bet", 'b');
    assert Lower("beta") == "beta" && Lower("bet") == "bet";
  }

  /** The name rule takes the first name containing the answer. */
  lemma ByNameFirst(p: seq<string>, input: string, i: nat)
    requires input != ""
    requires i < |p| && NameMatches(p[i], input)
    requires forall j :: 0 <= j < i ==> !NameMatches(p[j], input)
    ensures ByName(p, input) == Matched(p[i])
  {
    FirstIndexIs(p, n => NameMatches(n, input), i);
    MatchIsTruthy(p, input, i);
  }

  /** The name rule rejects an answer no name contains. */
  lemma ByNameNone(p: seq<string>, input: string)
    requires forall j :: 0 <= j < |p| ==> !NameMatches(p[j], input)
    ensures ByName(p, input) == Prompting
  {
  }

  /** A printed numeral on its own parses back to its number. */
  lemma ParsesTo(n: nat)
    ensures ParseInt(FormatNat(n)) == Num(n)
  {
    ParseIntFormat(n, "");
    assert FormatNat(n) + "" == FormatNat(n);
  }

  /** `"0"` is out of range, and then no name contains it: prompt again. */
  lemma ZeroFallsThrough()
    ensures Step(["alpha", "beta", "gamma"], Some("0")) == Prompting
  {
    var p := ["alpha", "beta", "gamma"];
    ParsesTo(0);
    assert FormatNat(0) == "0";
    assert Step(p, Some("0")) == ByName(p, "0");
    NoMatchWithout("alpha", "0", '0');
    NoMatchWithout("beta", "0", '0');
    NoMatchWithout("gamma", "0", '0');
    ByNameNone(p, "0");
  }

  /** `"10"` with three names is out of range and falls through to the name rule. */
  lemma TenFallsThrough()
    ensures Step(["a", "b10", "c"], Some("10")) == Matched("b10")
  {
    ParsesTo(10);
    assert FormatNat(10) == "10" by {
      assert FormatNat(1) == "1";
    }
    NoMatchWithout("a", "10", '1');
    assert NameMatches("b10", "10") by {
      assert Lower("b10") == "b10" && Lower("10") == "10";
      assert Contains("b10"[1..], "10");
    }
    ByNameFirst(["a", "b10", "c"], "10", 1);
  }

  /** A part of a name selects it. */
  lemma PromptByPart()
    ensures SelectionOf(["alpha", "beta", "gamma"], [Some("bet")]) == (Chosen("beta"), 1)
  {
    ParseIntNoDigits("", "", "bet");
    assert "" + "" + "bet" == "bet";
    BetMatchesBetaOnly();
    ByNameFirst(["alpha", "beta", "gamma"], "bet", 1);
  }

  /** A position selects the name there. */
  lemma PromptByPosition()
    ensures SelectionOf(["alpha", "beta", "gamma"], [Some("2")]) == (Chosen("beta"), 1)
  {
    ParsesTo(2);
    assert FormatNat(2) == "2";
  }

  /** A rejected answer prompts again; an empty one then cancels with exit 0. */
  lemma PromptRetryThenCancel()
    ensures SelectionOf(["alpha", "beta", "gamma"], [Some("x"), Some("")]) == (Quit(0), 2)
  {
    ParseIntNoDigits("", "", "x");
    assert "" + "" + "x" == "x";
    NoMatchWithout("alpha", "x", 'x');
    NoMatchWithout("beta", "x", 'x');
    NoMatchWithout("gamma", "x", 'x');
    ByNameNone(["alpha", "beta", "gamma"], "x");
    assert [Some("x"), Some("")][1..] == [Some("")];
  }
}
