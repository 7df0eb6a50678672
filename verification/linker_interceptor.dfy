// linker_interceptor.py: the wrapper placed in front of the C++ linker while
// LibAFL QEMU is built. It sorts the link arguments into the command that is
// recorded (`cmd`) and the shared-object / library-path list (`so`), writes
// both to a JSON record, and runs the real compiler on the unmodified arguments.
module LinkerInterceptor {
  import opened Common

  /** Tokens that are dropped outright. */
  const FILTER: seq<string> := ["-shared"]

  const DEFAULT_CXX: string := "c++"
  const DEFAULT_OUT: string := "linkinfo.json"

  predicate StartsWith(s: string, prefix: string) {
    |prefix| <= |s| && s[..|prefix|] == prefix
  }

  predicate EndsWith(s: string, suffix: string) {
    |suffix| <= |s| && s[|s| - |suffix|..] == suffix
  }

  /** What the first-match-wins chain does with a token that does not follow `-o`. */
  datatype Route = Dropped | OutputFlag | SharedOnly | SharedAndCmd | CmdOnly

  function RouteOf(t: string): Route {
    if t in FILTER then Dropped
    else if EndsWith(t, ".so") && !StartsWith(t, "-") then SharedOnly
    else if t == "-o" then OutputFlag
    else if StartsWith(t, "-L") || StartsWith(t, "-l") then SharedAndCmd
    else CmdOnly
  }

  /** The JSON record: `{"cmd": ..., "so": ...}`. */
  datatype LinkInfo = LinkInfo(cmd: seq<string>, so: seq<string>)

  function Join(a: LinkInfo, b: LinkInfo): LinkInfo {
    LinkInfo(a.cmd + b.cmd, a.so + b.so)
  }

  /** Whether the token after `t` is consumed as the argument of `-o`. */
  function NextPending(t: string, pending: bool): bool {
    !pending && RouteOf(t) == OutputFlag
  }

  /** The value of `prev_o` after the tokens `args` were seen, starting from `pending`. */
  function PendingAfter(args: seq<string>, pending: bool): bool {
    if args == [] then pending else PendingAfter(args[1..], NextPending(args[0], pending))
  }

  /** What one token adds to the record, given whether it follows a pending `-o`. */
  function Step(t: string, pending: bool): LinkInfo {
    if pending then LinkInfo([], [])
    else match RouteOf(t)
      case Dropped => LinkInfo([], [])
      case OutputFlag => LinkInfo([], [])
      case SharedOnly => LinkInfo([], [t])
      case SharedAndCmd => LinkInfo([t], [t])
      case CmdOnly => LinkInfo([t], [])
  }

  /** Reference definition of the pass: what the tokens `args` add to the record. */
  function Sort(args: seq<string>, pending: bool): LinkInfo {
    if args == [] then LinkInfo([], [])
    else Join(Step(args[0], pending), Sort(args[1..], NextPending(args[0], pending)))
  }

  /** The classification loop over `args` (linker_interceptor.py lines 12-29). */
  method Classify(args: seq<string>) returns (outArgs: seq<string>, shareds: seq<string>)
    ensures LinkInfo(outArgs, shareds) == Sort(args, false)
  {
    outArgs, shareds := [], [];
    var prevO := false;
    var i := 0;
    while i < |args|
      invariant 0 <= i <= |args|
      invariant Sort(args, false) == Join(LinkInfo(outArgs, shareds), Sort(args[i..], prevO))
    {
      assert args[i..][1..] == args[i + 1..];
      ghost var step := Step(args[i], prevO);
      ghost var next := NextPending(args[i], prevO);
      ghost var before := LinkInfo(outArgs, shareds);
      if prevO {
        prevO := false;
      } else if args[i] in FILTER {
      } else if EndsWith(args[i], ".so") && !StartsWith(args[i], "-") {
        shareds := shareds + [args[i]];
      } else if args[i] == "-o" {
        prevO := true;
      } else {
        if StartsWith(args[i], "-L") || StartsWith(args[i], "-l") {
          shareds := shareds + [args[i]];
        }
        outArgs := outArgs + [args[i]];
      }
      assert prevO == next;
      assert LinkInfo(outArgs, shareds) == Join(before, step);
      JoinAssoc(before, step, Sort(args[i + 1..], next));
      i := i + 1;
    }
  }

  lemma JoinAssoc(a: LinkInfo, b: LinkInfo, c: LinkInfo)
    ensures Join(Join(a, b), c) == Join(a, Join(b, c))
  {
    assert (a.cmd + b.cmd) + c.cmd == a.cmd + (b.cmd + c.cmd);
    assert (a.so + b.so) + c.so == a.so + (b.so + c.so);
  }

  /** `os.getenv(name) or default`: an unset or empty variable selects the default. */
  function EnvOr(v: Option<string>, default: string): (r: string)
    ensures r == default || (v.Some? && r == v.value)
    ensures r != "" <== default != ""
  {
    if v.Some? && v.value != "" then v.value else default
  }

  /**
   * The whole script: `argv` is `sys.argv`. The record goes to `outPath` and
   * the compiler command that is run is `forwarded`, built from the original
   * arguments rather than from `cmd`.
   */
  method Intercept(argv: seq<string>, cxxEnv: Option<string>, outEnv: Option<string>)
    returns (outPath: string, record: LinkInfo, forwarded: seq<string>)
    ensures outPath == EnvOr(outEnv, DEFAULT_OUT) && outPath != ""
    ensures record == Sort(if argv == [] then [] else argv[1..], false)
    ensures |forwarded| == |argv| + (if argv == [] then 1 else 0)
    ensures forwarded == [EnvOr(cxxEnv, DEFAULT_CXX)] + (if argv == [] then [] else argv[1..])
  {
    var cxx := EnvOr(cxxEnv, DEFAULT_CXX);
    outPath := EnvOr(outEnv, DEFAULT_OUT);
    var args := if argv == [] then [] else argv[1..];
    var cmd, so := Classify(args);
    record := LinkInfo(cmd, so);
    forwarded := [cxx] + args;
  }

  /** The pass is compositional: a split of the arguments splits the record. */
  lemma {:induction false} SortAppend(a: seq<string>, b: seq<string>, pending: bool)
    ensures Sort(a + b, pending) == Join(Sort(a, pending), Sort(b, PendingAfter(a, pending)))
  {
    if a == [] {
      assert a + b == b;
    } else {
      assert (a + b)[1..] == a[1..] + b;
      SortAppend(a[1..], b, NextPending(a[0], pending));
      JoinAssoc(Step(a[0], pending), Sort(a[1..], NextPending(a[0], pending)), Sort(b, PendingAfter(a, pending)));
    }
  }

  lemma {:induction false} PendingAfterAppend(a: seq<string>, b: seq<string>, pending: bool)
    ensures PendingAfter(a + b, pending) == PendingAfter(b, PendingAfter(a, pending))
  {
    if a == [] {
      assert a + b == b;
    } else {
      assert (a + b)[1..] == a[1..] + b;
      PendingAfterAppend(a[1..], b, NextPending(a[0], pending));
    }
  }

  /**
   * A `-o` that is not itself the argument of an earlier `-o` takes the next
   * token with it: neither reaches the record, whatever that token is
   * (even one ending in `.so`), and the pass then goes on as at the start.
   */
  lemma OutputPairDropped(before: seq<string>, target: string, after: seq<string>)
    requires !PendingAfter(before, false)
    ensures Sort(before + ["-o", target] + after, false) == Join(Sort(before, false), Sort(after, false))
  {
    assert RouteOf("-o") == OutputFlag by {
      assert !EndsWith("-o", ".so");
      assert "-o" !in FILTER by { assert "-o" != "-shared"; }
    }
    var pair := ["-o", target];
    assert pair[1..] == [target] && [target][1..] == [];
    assert Sort([target], true) == LinkInfo([], []);
    assert Sort(pair, false) == LinkInfo([], []);
    assert PendingAfter([target], true) == PendingAfter([], false);
    assert PendingAfter(pair, false) == false;
    SortAppend(before + pair, after, false);
    SortAppend(before, pair, false);
    PendingAfterAppend(before, pair, false);
    assert Sort(before + pair, false) == Sort(before, false);
  }

  /** Every token on its own: `.so` names only to `so`, `-L`/`-l` to both, `-shared` and `-o` nowhere. */
  lemma SingleToken(t: string)
    ensures Sort([t], false) == Step(t, false)
    ensures RouteOf(t) == SharedOnly ==> Sort([t], false) == LinkInfo([], [t])
    ensures RouteOf(t) == SharedAndCmd ==> Sort([t], false) == LinkInfo([t], [t])
    ensures RouteOf(t) == CmdOnly ==> Sort([t], false) == LinkInfo([t], [])
    ensures RouteOf(t) in {Dropped, OutputFlag} ==> Sort([t], false) == LinkInfo([], [])
  {
    assert [t][1..] == [];
  }

  /** A versioned library name does not end in `.so`, so it stays on the command line only. */
  lemma VersionedLibraryKept()
    ensures RouteOf("libx.so.1") == CmdOnly
    ensures RouteOf("libx.so") == SharedOnly
    ensures RouteOf("-shared") == Dropped
    ensures RouteOf("-lfoo") == SharedAndCmd
  {
    assert !EndsWith("libx.so.1", ".so") by {
      assert "libx.so.1"[6] == 'o';
    }
    assert "libx.so.1" !in FILTER by { assert |"libx.so.1"| != |"-shared"|; }
    assert !StartsWith("libx.so.1", "-L") && !StartsWith("libx.so.1", "-l") by {
      assert "libx.so.1"[0] == 'l';
    }
    assert "libx.so.1" != "-o";
    assert EndsWith("libx.so", ".so") by {
      assert "libx.so"[4..] == ".so";
    }
    assert !StartsWith("libx.so", "-") by { assert "libx.so"[0] == 'l'; }
    assert "libx.so" !in FILTER by { assert "libx.so"[0] != "-shared"[0]; }
    assert "-lfoo" !in FILTER by { assert |"-lfoo"| != |"-shared"|; }
    assert !EndsWith("-lfoo", ".so") by { assert "-lfoo"[2] == 'f'; }
    assert "-lfoo" != "-o";
    assert StartsWith("-lfoo", "-l") by { assert "-lfoo"[..2] == "-l"; }
  }

  /** `x` is an order-preserving subsequence of `y`. */
  predicate IsSubseq(x: seq<string>, y: seq<string>)
    decreases |y|
  {
    if x == [] then true
    else if y == [] then false
    else (x[0] == y[0] && IsSubseq(x[1..], y[1..])) || IsSubseq(x, y[1..])
  }

  lemma SubseqPrepend(head: seq<string>, x: seq<string>, y: seq<string>)
    requires y != [] && IsSubseq(x, y[1..])
    requires head == [] || head == [y[0]]
    ensures IsSubseq(head + x, y)
  {
    if head == [] {
      assert head + x == x;
    } else {
      assert (head + x)[0] == y[0] && (head + x)[1..] == x;
    }
  }

  /** Both lists keep the order of the arguments (duplicates included). */
  lemma {:induction false} SortKeepsOrder(args: seq<string>, pending: bool)
    ensures IsSubseq(Sort(args, pending).cmd, args)
    ensures IsSubseq(Sort(args, pending).so, args)
  {
    if args != [] {
      var p := NextPending(args[0], pending);
      SortKeepsOrder(args[1..], p);
      var rest := Sort(args[1..], p);
      var step := Step(args[0], pending);
      assert Sort(args, pending) == Join(step, rest);
      SubseqPrepend(step.cmd, rest.cmd, args);
      SubseqPrepend(step.so, rest.so, args);
    }
  }

  /** Neither `-o` nor `-shared` is ever recorded, and `so` holds only library tokens. */
  lemma {:induction false} SortMembers(args: seq<string>, pending: bool)
    ensures "-o" !in Sort(args, pending).cmd && "-o" !in Sort(args, pending).so
    ensures "-shared" !in Sort(args, pending).cmd && "-shared" !in Sort(args, pending).so
    ensures forall t :: t in Sort(args, pending).so ==> RouteOf(t) == SharedOnly || RouteOf(t) == SharedAndCmd
    ensures forall t :: t in Sort(args, pending).cmd ==> RouteOf(t) == SharedAndCmd || RouteOf(t) == CmdOnly
  {
    if args != [] {
      SortMembers(args[1..], NextPending(args[0], pending));
    }
  }
}
