/**
 * The scan of the command line at the start of `main`: the build's own flags are
 * recognised, turned into compiler arguments and include roots, and taken out of the
 * argument list before the rest is handed on to the build.
 */
module FlagScan {
  import opened Common
  import IncludeSearch

  /** The compiler arguments `--debug` adds. */
  const DebugCompileArgs: seq<string> := ["-O0", "-g"]

  /** The compiler argument `-t` and `--trace` add. */
  const TraceCompileArgs: seq<string> := ["-DDEBUG"]

  /** The prefix that marks an include-root argument. */
  const IncludeRootFlag: string := "--include-root"

  /** The separator the include root is split off at. */
  const IncludeRootSeparator: string := "--include-root="

  /** What the scan collects: `extra_compile_args` and `include_roots`. */
  datatype Options = Options(extraCompileArgs: seq<string>, includeRoots: seq<string>)

  /** `arg.split('--include-root=')[1]` raises `IndexError` when the separator is absent. */
  datatype ScanError = MissingSeparator(arg: string)

  const NoOptions: Options := Options([], [])

  // ---------------------------------------------------------------------------
  // str.split(sep)[1]
  // ---------------------------------------------------------------------------

  /** `sep` occurs in `s` at position `i`. */
  predicate Occurs(s: string, sep: string, i: int)
  {
    0 <= i && i + |sep| <= |s| && s[i..i + |sep|] == sep
  }

  /** The position of the first occurrence of `sep` in `s`, if any. */
  function FindSub(s: string, sep: string): (r: Option<nat>)
    requires sep != []
    ensures r.Some? ==> Occurs(s, sep, r.value) && forall i :: 0 <= i < r.value ==> !Occurs(s, sep, i)
    ensures r.None? ==> forall i :: !Occurs(s, sep, i)
    decreases |s|
  {
    if |s| < |sep| then None
    else if s[..|sep|] == sep then Some(0)
    else
      var r' := FindSub(s[1..], sep);
      ShiftOccurs(s, sep);
      if r'.None? then None else Some(r'.value + 1)
  }

  /** An occurrence past the first character of `s` is an occurrence in `s[1..]`. */
  lemma ShiftOccurs(s: string, sep: string)
    requires s != []
    ensures forall i :: 1 <= i ==> (Occurs(s, sep, i) <==> Occurs(s[1..], sep, i - 1))
  {
    forall i | 1 <= i
      ensures Occurs(s, sep, i) <==> Occurs(s[1..], sep, i - 1)
    {
      if i + |sep| <= |s| {
        assert s[1..][i - 1..i - 1 + |sep|] == s[i..i + |sep|];
      }
    }
  }

  /** `s.split(sep)[1]`: the text between the first and the second occurrence of `sep`,
      or after the first when there is no second; `None` when `sep` does not occur. The
      field starts right after the first occurrence, holds no occurrence itself, and ends
      at the next occurrence or at the end of `s`. */
  function SplitField(s: string, sep: string): (r: Option<string>)
    requires sep != []
    ensures r.None? <==> FindSub(s, sep).None?
    ensures r.Some? ==>
              var rest := s[FindSub(s, sep).value + |sep|..];
              r.value <= rest && (forall i :: !Occurs(r.value, sep, i)) &&
              (|r.value| == |rest| || Occurs(rest, sep, |r.value|))
  {
    match FindSub(s, sep)
    case None => None
    case Some(i) =>
      var rest := s[i + |sep|..];
      match FindSub(rest, sep)
      case None => Some(rest)
      case Some(j) =>
        assert forall k :: !Occurs(rest[..j], sep, k) by {
          forall k | Occurs(rest[..j], sep, k)
            ensures false
          {
            assert rest[..j][k..k + |sep|] == rest[k..k + |sep|];
            assert Occurs(rest, sep, k);
          }
        }
        Some(rest[..j])
  }

  /** The field is missing exactly when the separator does not occur. */
  lemma SplitFieldMissing(s: string, sep: string)
    requires sep != []
    ensures SplitField(s, sep).None? <==> forall i :: !Occurs(s, sep, i)
  {
    if SplitField(s, sep).None? {
      assert FindSub(s, sep).None?;
    } else {
      assert Occurs(s, sep, FindSub(s, sep).value);
    }
  }

  /** `--include-root=<dir>` gives `<dir>`, as long as `<dir>` does not itself hold the
      separator. */
  lemma IncludeRootValue(dir: string)
    requires forall i :: !Occurs(dir, IncludeRootSeparator, i)
    ensures SplitField(IncludeRootSeparator + dir, IncludeRootSeparator) == Some(dir)
  {
    var s := IncludeRootSeparator + dir;
    assert s[..|IncludeRootSeparator|] == IncludeRootSeparator;
    assert FindSub(s, IncludeRootSeparator) == Some(0);
    assert s[|IncludeRootSeparator|..] == dir;
  }

  // ---------------------------------------------------------------------------
  // The scan, as a specification
  // ---------------------------------------------------------------------------

  predicate IsDebugFlag(arg: string)
  {
    arg == "--debug"
  }

  predicate IsTraceFlag(arg: string)
  {
    arg == "-t" || arg == "--trace"
  }

  predicate IsIncludeRootArg(arg: string)
  {
    IncludeRootFlag <= arg
  }

  /** An argument the scan acts on and takes out of the list. */
  predicate Recognised(arg: string)
  {
    IsDebugFlag(arg) || IsTraceFlag(arg) || IsIncludeRootArg(arg)
  }

  /** One turn of the loop, on the options collected so far. */
  function Step(opts: Options, arg: string): Result<Options, ScanError>
  {
    var o1 := if IsDebugFlag(arg) then opts.(extraCompileArgs := opts.extraCompileArgs + DebugCompileArgs) else opts;
    var o2 := if IsTraceFlag(arg) then o1.(extraCompileArgs := o1.extraCompileArgs + TraceCompileArgs) else o1;
    if IsIncludeRootArg(arg) then
      match SplitField(arg, IncludeRootSeparator)
      case None => Failure(MissingSeparator(arg))
      case Some(dir) => Success(o2.(includeRoots := o2.includeRoots + [dir]))
    else Success(o2)
  }

  /** The loop over `args`, starting from `opts`; the first failure ends it. */
  function ScanFrom(opts: Options, args: seq<string>): Result<Options, ScanError>
    decreases |args|
  {
    if args == [] then Success(opts)
    else match Step(opts, args[0])
      case Failure(e) => Failure(e)
      case Success(o) => ScanFrom(o, args[1..])
  }

  /** The scan of a whole command line. */
  function Scan(args: seq<string>): Result<Options, ScanError>
  {
    ScanFrom(NoOptions, args)
  }

  /** The arguments the scan leaves in the list, in order. */
  function Unrecognised(args: seq<string>): (r: seq<string>)
    ensures forall x :: x in r <==> x in args && !Recognised(x)
    ensures |r| <= |args|
    decreases |args|
  {
    if args == [] then []
    else (if Recognised(args[0]) then [] else [args[0]]) + Unrecognised(args[1..])
  }

  // ---------------------------------------------------------------------------
  // The scan, argument by argument
  // ---------------------------------------------------------------------------

  /** The compiler arguments one command-line argument contributes. */
  function CompileArgsOf(arg: string): seq<string>
  {
    if IsDebugFlag(arg) then DebugCompileArgs
    else if IsTraceFlag(arg) then TraceCompileArgs
    else []
  }

  /** The compiler arguments of a command line: each argument's, in order. */
  function CompileArgs(args: seq<string>): seq<string>
    decreases |args|
  {
    if args == [] then [] else CompileArgsOf(args[0]) + CompileArgs(args[1..])
  }

  /** The include roots of a command line: the field of each include-root argument, in
      order. */
  function IncludeRoots(args: seq<string>): seq<string>
    requires forall i :: 0 <= i < |args| && IsIncludeRootArg(args[i]) ==>
               SplitField(args[i], IncludeRootSeparator).Some?
    decreases |args|
  {
    if args == [] then [] else RootOf(args[0]) + IncludeRoots(args[1..])
  }

  /** The include root one command-line argument contributes. */
  function RootOf(arg: string): seq<string>
    requires IsIncludeRootArg(arg) ==> SplitField(arg, IncludeRootSeparator).Some?
  {
    if IsIncludeRootArg(arg) then [SplitField(arg, IncludeRootSeparator).value] else []
  }

  /** A successful turn of the loop appends the argument's compiler arguments and root. */
  lemma StepAppends(opts: Options, arg: string)
    ensures Step(opts, arg).Success? <==> (IsIncludeRootArg(arg) ==> SplitField(arg, IncludeRootSeparator).Some?)
    ensures Step(opts, arg).Success? ==>
              Step(opts, arg).value == Options(opts.extraCompileArgs + CompileArgsOf(arg), opts.includeRoots + RootOf(arg))
  {
    if IsDebugFlag(arg) || IsTraceFlag(arg) {
      FlagsExclusive(arg);
    } else {
      assert opts.extraCompileArgs + [] == opts.extraCompileArgs;
    }
    if !IsIncludeRootArg(arg) {
      assert opts.includeRoots + [] == opts.includeRoots;
    }
  }

  /** Every include-root argument holds the separator. */
  predicate AllSeparated(args: seq<string>)
  {
    forall i :: 0 <= i < |args| && IsIncludeRootArg(args[i]) ==> SplitField(args[i], IncludeRootSeparator).Some?
  }

  /** The loop from any starting options fails exactly when some include-root argument
      lacks the separator, and then with the first such argument; otherwise it appends
      each argument's compiler arguments and include root to what it started with. */
  lemma {:induction false} ScanFromCharacterised(opts: Options, args: seq<string>)
    ensures ScanFrom(opts, args).Success? <==> AllSeparated(args)
    ensures AllSeparated(args) ==>
              ScanFrom(opts, args) == Success(Options(opts.extraCompileArgs + CompileArgs(args),
                                                      opts.includeRoots + IncludeRoots(args)))
    decreases |args|
  {
    if args == [] {
      assert opts.extraCompileArgs + [] == opts.extraCompileArgs;
      assert opts.includeRoots + [] == opts.includeRoots;
    } else {
      var a := args[0];
      AllSeparatedCons(args);
      StepAppends(opts, a);
      if Step(opts, a).Success? {
        var o := Step(opts, a).value;
        ScanFromCharacterised(o, args[1..]);
        if AllSeparated(args) {
          AppendAssoc(opts.extraCompileArgs, CompileArgsOf(a), CompileArgs(args[1..]));
          AppendAssoc(opts.includeRoots, RootOf(a), IncludeRoots(args[1..]));
        }
      }
    }
  }

  lemma AllSeparatedCons(args: seq<string>)
    requires args != []
    ensures AllSeparated(args) <==>
            (IsIncludeRootArg(args[0]) ==> SplitField(args[0], IncludeRootSeparator).Some?) && AllSeparated(args[1..])
  {
    assert forall i :: 1 <= i < |args| ==> args[i] == args[1..][i - 1];
  }

  /** The scan succeeds exactly when every include-root argument holds the separator, and
      then collects each argument's compiler arguments and include root, in order. */
  lemma ScanCharacterised(args: seq<string>)
    ensures Scan(args).Success? <==> AllSeparated(args)
    ensures AllSeparated(args) ==> Scan(args) == Success(Options(CompileArgs(args), IncludeRoots(args)))
  {
    ScanFromCharacterised(NoOptions, args);
    if AllSeparated(args) {
      assert [] + CompileArgs(args) == CompileArgs(args);
      assert [] + IncludeRoots(args) == IncludeRoots(args);
    }
  }

  /** Scanning a command line in two parts is scanning the first, then the second from
      where the first left off. */
  lemma {:induction false} ScanFromConcat(opts: Options, a: seq<string>, b: seq<string>)
    ensures ScanFrom(opts, a + b) ==
            match ScanFrom(opts, a)
            case Failure(e) => Failure(e)
            case Success(o) => ScanFrom(o, b)
    decreases |a|
  {
    if a == [] {
      assert a + b == b;
    } else {
      assert (a + b)[0] == a[0] && (a + b)[1..] == a[1..] + b;
      match Step(opts, a[0])
      case Failure(e) =>
      case Success(o) => ScanFromConcat(o, a[1..], b);
    }
  }

  /** The argument `--include-root` on its own, with the directory as the next argument,
      has no separator: the scan fails on it. */
  lemma SpacedIncludeRootFails(dir: string)
    ensures Scan([IncludeRootFlag, dir]) == Failure(MissingSeparator(IncludeRootFlag))
  {
    assert IsIncludeRootArg(IncludeRootFlag);
    assert !Occurs(IncludeRootFlag, IncludeRootSeparator, 0);
    assert FindSub(IncludeRootFlag, IncludeRootSeparator).None?;
  }

  /** With no include-root argument the scan hands the search an empty list, and the
      search falls back to its default roots. */
  lemma NoIncludeRootsUseDefaults(args: seq<string>)
    requires forall i :: 0 <= i < |args| ==> !IsIncludeRootArg(args[i])
    ensures Scan(args).Success?
    ensures IncludeSearch.SearchRoots(Some(Scan(args).value.includeRoots)) == IncludeSearch.DefaultIncludeRoots
  {
    ScanCharacterised(args);
    NoIncludeRootArgs(args);
  }

  lemma {:induction false} NoIncludeRootArgs(args: seq<string>)
    requires forall i :: 0 <= i < |args| ==> !IsIncludeRootArg(args[i])
    ensures AllSeparated(args) && IncludeRoots(args) == []
    decreases |args|
  {
    if args != [] {
      NoIncludeRootArgs(args[1..]);
    }
  }

  // ---------------------------------------------------------------------------
  // list.remove
  // ---------------------------------------------------------------------------

  /** `list.remove(x)` on a list that holds `x`: the first occurrence is taken out, so the
      list is one element shorter. */
  function RemoveFirst(s: seq<string>, x: string): (r: seq<string>)
    ensures |r| == if x in s then |s| - 1 else |s|
    decreases |s|
  {
    if s == [] then []
    else if s[0] == x then s[1..]
    else
      assert x in s <==> x in s[1..];
      [s[0]] + RemoveFirst(s[1..], x)
  }

  /** Removing `x` takes out one copy of `x` and keeps every other element. */
  lemma {:induction false} RemoveFirstCounts(s: seq<string>, x: string)
    requires x in s
    ensures multiset(RemoveFirst(s, x)) == multiset(s) - multiset{x}
    decreases |s|
  {
    assert s == [s[0]] + s[1..];
    if s[0] != x {
      assert x in s[1..];
      RemoveFirstCounts(s[1..], x);
    }
  }

  /** Removing `x` from a list whose first occurrence of `x` is at `i` splices out `i`. */
  lemma {:induction false} RemoveFirstAt(s: seq<string>, x: string, i: nat)
    requires i < |s| && s[i] == x && x !in s[..i]
    ensures RemoveFirst(s, x) == s[..i] + s[i + 1..]
    decreases i
  {
    if i > 0 {
      assert s[0] == s[..i][0];
      var t := s[1..][..i - 1];
      forall j | 0 <= j < |t|
        ensures t[j] != x
      {
        assert t[j] == s[..i][j + 1];
      }
      RemoveFirstAt(s[1..], x, i - 1);
      assert s[..i] == [s[0]] + s[1..][..i - 1];
      assert s[1..][i..] == s[i + 1..];
    }
  }

  /** Removing an absent element changes nothing. */
  lemma {:induction false} RemoveFirstAbsent(s: seq<string>, x: string)
    requires x !in s
    ensures RemoveFirst(s, x) == s
    decreases |s|
  {
    if s != [] {
      forall j | 0 <= j < |s| - 1
        ensures s[1..][j] != x
      {
        assert s[1..][j] == s[j + 1];
      }
      RemoveFirstAbsent(s[1..], x);
    }
  }

  /** A Python list of strings that is updated in place: `sys.argv`. */
  class ArgList {
    var args: seq<string>

    constructor(args: seq<string>)
      ensures this.args == args
    {
      this.args := args;
    }

    /** `list.remove(x)`: searches for the first `x` and takes it out. `found` is false
        when there is none, where Python raises `ValueError`. */
    method Remove(x: string) returns (found: bool)
      modifies this
      ensures found <==> x in old(args)
      ensures args == RemoveFirst(old(args), x)
    {
      var i := 0;
      while i < |args|
        invariant 0 <= i <= |args|
        invariant x !in args[..i]
      {
        if args[i] == x {
          RemoveFirstAt(args, x, i);
          args := args[..i] + args[i + 1..];
          return true;
        }
        assert args[..i + 1] == args[..i] + [args[i]];
        i := i + 1;
      }
      assert args[..i] == args;
      RemoveFirstAbsent(args, x);
      return false;
    }
  }

  /** Taking a recognised argument out of what is left after the arguments before it were
      scanned leaves what is left after scanning it too. */
  lemma RemoveScanned(args: seq<string>, k: nat)
    requires k < |args| && Recognised(args[k])
    ensures RemoveFirst(Unrecognised(args[..k]) + args[k..], args[k]) == Unrecognised(args[..k + 1]) + args[k + 1..]
  {
    var p := Unrecognised(args[..k]);
    assert args[k] !in p;
    RemoveAfterPrefix(p, args[k..], args[k]);
    assert args[k..][1..] == args[k + 1..];
    UnrecognisedSnoc(args[..k], args[k]);
    assert args[..k + 1] == args[..k] + [args[k]];
    assert Unrecognised(args[..k + 1]) == p + [];
    assert p + [] == p;
  }

  /** Removing `x` from a list that holds no `x` before `rest`, which starts with `x`,
      takes out the head of `rest`. */
  lemma RemoveAfterPrefix(p: seq<string>, rest: seq<string>, x: string)
    requires x !in p && rest != [] && rest[0] == x
    ensures RemoveFirst(p + rest, x) == p + rest[1..]
  {
    var s := p + rest;
    assert s[|p|] == x;
    assert s[..|p|] == p;
    RemoveFirstAt(s, x, |p|);
    assert s[|p| + 1..] == rest[1..];
  }

  /** An unrecognised argument stays in the list when scanned. */
  lemma KeepScanned(args: seq<string>, k: nat)
    requires k < |args| && !Recognised(args[k])
    ensures Unrecognised(args[..k]) + args[k..] == Unrecognised(args[..k + 1]) + args[k + 1..]
  {
    UnrecognisedSnoc(args[..k], args[k]);
    assert args[..k + 1] == args[..k] + [args[k]];
    assert args[k..] == [args[k]] + args[k + 1..];
    AppendAssoc(Unrecognised(args[..k]), [args[k]], args[k + 1..]);
  }

  lemma {:induction false} UnrecognisedSnoc(args: seq<string>, x: string)
    ensures Unrecognised(args + [x]) == Unrecognised(args) + (if Recognised(x) then [] else [x])
    decreases |args|
  {
    if args == [] {
      assert args + [x] == [x];
    } else {
      assert (args + [x])[0] == args[0] && (args + [x])[1..] == args[1..] + [x];
      UnrecognisedSnoc(args[1..], x);
      AppendAssoc(if Recognised(args[0]) then [] else [args[0]], Unrecognised(args[1..]),
                  if Recognised(x) then [] else [x]);
    }
  }

  // ---------------------------------------------------------------------------
  // The loop of main
  // ---------------------------------------------------------------------------

  /** At most one of the three tests holds for any argument. */
  lemma FlagsExclusive(arg: string)
    ensures IsDebugFlag(arg) ==> !IsTraceFlag(arg) && !IsIncludeRootArg(arg)
    ensures IsTraceFlag(arg) ==> !IsIncludeRootArg(arg)
  {
    if IsDebugFlag(arg) {
      assert arg[2] != IncludeRootFlag[2];
    }
    if arg == "--trace" {
      assert arg[2] != IncludeRootFlag[2];
    }
  }

  /** The body of the loop for one argument: the three tests in turn, each adding to the
      options and taking the argument out of `argv`. */
  method HandleArg(argv: ArgList, opts: Options, arg: string) returns (r: Result<Options, ScanError>)
    requires arg in argv.args
    modifies argv
    ensures r == Step(opts, arg)
    ensures argv.args == if r.Success? && Recognised(arg) then RemoveFirst(old(argv.args), arg) else old(argv.args)
  {
    FlagsExclusive(arg);
    var extraCompileArgs := opts.extraCompileArgs;
    var includeRoots := opts.includeRoots;
    if arg == "--debug" {
      extraCompileArgs := extraCompileArgs + DebugCompileArgs;
      var removed := argv.Remove(arg);
    }
    if arg == "-t" || arg == "--trace" {
      extraCompileArgs := extraCompileArgs + TraceCompileArgs;
      var removed := argv.Remove(arg);
    }
    if IncludeRootFlag <= arg {
      var dir := SplitField(arg, IncludeRootSeparator);
      if dir.None? {
        return Failure(MissingSeparator(arg));
      }
      includeRoots := includeRoots + [dir.value];
      var removed := argv.Remove(arg);
    }
    return Success(Options(extraCompileArgs, includeRoots));
  }

  /** The loop `for arg in argv[:]` of `main`. It ends with the options `Scan` gives, and
      with every recognised argument taken out of `argv`. When an include-root argument
      has no separator, the scan stops there: the arguments before it have been handled
      and taken out, and it and everything after are still in `argv`. */
  method ScanFlags(argv: ArgList) returns (r: Result<Options, ScanError>)
    modifies argv
    ensures r == Scan(old(argv.args))
    ensures r.Success? ==> argv.args == Unrecognised(old(argv.args))
    ensures r.Failure? ==>
              exists k :: 0 <= k < |old(argv.args)| && old(argv.args)[k] == r.error.arg &&
                Scan(old(argv.args)[..k]).Success? &&
                argv.args == Unrecognised(old(argv.args)[..k]) + old(argv.args)[k..]
  {
    var original := argv.args;
    var opts := NoOptions;
    var k := 0;
    assert original[..0] == [];
    while k < |original|
      invariant 0 <= k <= |original|
      invariant argv.args == Unrecognised(original[..k]) + original[k..]
      invariant Scan(original[..k]) == Success(opts)
      invariant ScanFrom(opts, original[k..]) == Scan(original)
    {
      var arg := original[k];
      ScanStep(original, k, opts);
      assert arg in argv.args by {
        assert argv.args[|Unrecognised(original[..k])|] == arg;
      }
      var res := HandleArg(argv, opts, arg);
      if res.Failure? {
        return Failure(res.error);
      }
      if Recognised(arg) {
        RemoveScanned(original, k);
      } else {
        KeepScanned(original, k);
      }
      opts := res.value;
      k := k + 1;
    }
    assert original[k..] == [];
    assert original[..k] == original;
    return Success(opts);
  }

  /** What the loop's specification says about one more argument. */
  lemma ScanStep(args: seq<string>, k: nat, opts: Options)
    requires k < |args|
    requires Scan(args[..k]) == Success(opts)
    ensures ScanFrom(opts, args[k..]) ==
            match Step(opts, args[k])
            case Failure(e) => Failure(e)
            case Success(o) => ScanFrom(o, args[k + 1..])
    ensures Step(opts, args[k]).Success? ==> Scan(args[..k + 1]) == Step(opts, args[k])
  {
    ScanFromConcat(NoOptions, args[..k], [args[k]]);
    assert args[..k + 1] == args[..k] + [args[k]];
    assert args[k..] == [args[k]] + args[k + 1..];
    assert args[k..][1..] == args[k + 1..];
  }
}
