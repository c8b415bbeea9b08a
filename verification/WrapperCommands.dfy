/** Looking through `timeout`, `nice`, `nohup`, `setsid` and `stdbuf` for the program they start
    (crates/omne-execution-gateway/src/gateway.rs). */
module WrapperCommands {
  import opened Primitives
  import opened Wrappers

  /** A command-line argument: text, or bytes that are not UTF-8. */
  datatype Arg = Text(text: string) | Bytes(raw: string)

  datatype Wrapper = Timeout | Nice | Nohup | Setsid | Stdbuf

  /** A program and its arguments. */
  datatype Invocation = Invocation(program: Arg, args: seq<Arg>)

  // ---------------------------------------------------------------- program names

  function LastSegment(s: string): (r: string)
    ensures |r| <= |s|
  {
    if s == "" || s[|s|-1] == '/' then "" else LastSegment(s[..|s|-1]) + [s[|s|-1]]
  }

  /** `Path::file_name`: the last component, unless there is none or it is `..`. */
  function FileName(s: string): Option<string>
    decreases |s|
  {
    if s == "" then None
    else if s[|s|-1] == '/' then FileName(s[..|s|-1])
    else
      var last := LastSegment(s);
      if last == "." && |s| > 1 then FileName(s[..|s|-1])
      else if last == "." || last == ".." then None
      else Some(last)
  }

  predicate EndsWith(s: string, suffix: string) {
    |suffix| <= |s| && s[|s| - |suffix|..] == suffix
  }

  function StripExecutableSuffix(s: string): string {
    if EndsWith(s, ".exe") || EndsWith(s, ".cmd") || EndsWith(s, ".bat") || EndsWith(s, ".com") then s[..|s|-4] else s
  }

  predicate IsAscii(s: string) {
    forall i :: 0 <= i < |s| ==> s[i] as int < 128
  }

  /** `program_basename_ascii`. */
  function Basename(program: Arg): Option<string> {
    if program.Bytes? then None
    else
      var name := match FileName(program.text) case Some(n) => n case None => program.text;
      if IsAscii(name) then Some(StripExecutableSuffix(LowerAll(name))) else None
  }

  predicate VersionOf(program: string, family: string) {
    family <= program && forall i :: |family| <= i < |program| ==> '0' <= program[i] <= '9' || program[i] == '.'
  }

  const OPAQUE_LAUNCHERS: set<string> := {
    "env", "sh", "bash", "dash", "zsh", "fish", "ksh", "csh", "tcsh", "cmd", "powershell", "pwsh", "node", "nodejs",
    "deno", "bun", "ruby", "perl", "php", "lua", "npm", "npx", "pnpm", "yarn"}

  predicate OpaqueName(name: string) {
    name in OPAQUE_LAUNCHERS || VersionOf(name, "python") || VersionOf(name, "pythonw") || VersionOf(name, "pip")
  }

  /** `uses_opaque_command_launcher`. */
  predicate IsOpaque(program: Arg) {
    Basename(program).Some? && OpaqueName(Basename(program).value)
  }

  function WrapperNamed(name: string): Option<Wrapper> {
    if name == "timeout" then Some(Timeout)
    else if name == "nice" then Some(Nice)
    else if name == "nohup" then Some(Nohup)
    else if name == "setsid" then Some(Setsid)
    else if name == "stdbuf" then Some(Stdbuf)
    else None
  }

  function WrapperOf(program: Arg): Option<Wrapper> {
    match Basename(program) case None => None case Some(name) => WrapperNamed(name)
  }

  lemma WrappersAreNotOpaque(program: Arg)
    requires WrapperOf(program).Some?
    ensures !IsOpaque(program)
  {
    WrapperNamesAreNotOpaque(Basename(program).value);
  }

  lemma WrapperNamesAreNotOpaque(name: string)
    requires WrapperNamed(name).Some?
    ensures !OpaqueName(name)
  {
    assert name[0] != 'p';
  }

  // ---------------------------------------------------------------- options

  const DASHES := Text("--")

  /** Options that take their value from the next argument. */
  function Valued(w: Wrapper): set<string> {
    match w
    case Timeout => {"-k", "--kill-after", "-s", "--signal"}
    case Nice => {"-n", "--adjustment"}
    case Nohup => {}
    case Setsid => {}
    case Stdbuf => {"-i", "-o", "-e"}
  }

  predicate LooksLikeOption(text: string) {
    text != "" && text[0] == '-' && text != "-"
  }

  /** Where the options end; an argument that is not UTF-8 ends the attempt. */
  function Scan(valued: set<string>, args: seq<Arg>, index: nat): (r: Option<nat>)
    ensures r.Some? ==> r.value >= index
    decreases |args| - index
  {
    if index >= |args| then Some(index)
    else if args[index].Bytes? then None
    else if args[index] == DASHES then Some(index + 1)
    else if !LooksLikeOption(args[index].text) then Some(index)
    else Scan(valued, args, index + if args[index].text in valued then 2 else 1)
  }

  /** How many arguments stand between the options and the program. */
  function Positionals(w: Wrapper): nat {
    if w.Timeout? then 1 else 0
  }

  function At(args: seq<Arg>, index: nat): Option<Invocation> {
    if index < |args| then Some(Invocation(args[index], args[index + 1..])) else None
  }

  /** `passthrough_wrapper_subcommand`. */
  function Passthrough(args: seq<Arg>): Option<Invocation> {
    At(args, if args != [] && args[0] == DASHES then 1 else 0)
  }

  function Subcommand(w: Wrapper, args: seq<Arg>): (r: Option<Invocation>)
    ensures r.Some? ==> |r.value.args| < |args|
  {
    if w.Nohup? then Passthrough(args)
    else
      match Scan(Valued(w), args, 0)
      case None => None
      case Some(index) => At(args, index + Positionals(w))
  }

  /** `timeout_subcommand`, `nice_subcommand`, `setsid_subcommand` and `stdbuf_subcommand`, which
      differ in the options that take a value and in the duration that `timeout` wants. */
  method ScanSubcommand(w: Wrapper, args: seq<Arg>) returns (r: Option<Invocation>)
    requires !w.Nohup?
    ensures r == Subcommand(w, args)
  {
    var index := 0;
    while index < |args|
      invariant Scan(Valued(w), args, index) == Scan(Valued(w), args, 0)
      decreases |args| - index
    {
      if args[index].Bytes? {
        return None;
      }
      var text := args[index].text;
      if text == "--" {
        index := index + 1;
        return At(args, index + Positionals(w));
      }
      if !LooksLikeOption(text) {
        break;
      }
      index := index + if text in Valued(w) then 2 else 1;
    }
    r := At(args, index + Positionals(w));
  }

  /** `wrapped_subcommand`. */
  function Wrapped(i: Invocation): (r: Option<Invocation>)
    ensures r.Some? ==> |r.value.args| < |i.args|
  {
    match WrapperOf(i.program) case None => None case Some(w) => Subcommand(w, i.args)
  }

  /** `invocation_uses_opaque_command_launcher`. */
  predicate UsesOpaqueLauncher(i: Invocation)
    decreases |i.args|
  {
    IsOpaque(i.program) || (Wrapped(i).Some? && UsesOpaqueLauncher(Wrapped(i).value))
  }

  /** The programs that start one another. */
  function Chain(i: Invocation): (s: seq<Arg>)
    ensures s != []
    decreases |i.args|
  {
    match Wrapped(i) case None => [i.program] case Some(next) => [i.program] + Chain(next)
  }

  /** The answer is yes exactly when some program on the chain is an opaque launcher. */
  lemma {:induction false} OpaqueSomewhere(i: Invocation)
    ensures UsesOpaqueLauncher(i) <==> exists k :: 0 <= k < |Chain(i)| && IsOpaque(Chain(i)[k])
    decreases |i.args|
  {
    assert Chain(i)[0] == i.program;
    if Wrapped(i).Some? {
      var next := Wrapped(i).value;
      OpaqueSomewhere(next);
      assert forall k :: 0 < k < |Chain(i)| ==> Chain(i)[k] == Chain(next)[k - 1];
      if UsesOpaqueLauncher(next) {
        var k :| 0 <= k < |Chain(next)| && IsOpaque(Chain(next)[k]);
        assert Chain(i)[k + 1] == Chain(next)[k];
      }
    }
  }

  // ---------------------------------------------------------------- printing

  datatype Opt = Flag(arg: Arg) | Pair(name: Arg, value: Arg)

  /** How a wrapper is written before the command it starts. */
  datatype Layer = Layer(opts: seq<Opt>, dashes: bool, positionals: seq<Arg>)

  function PrintOpt(o: Opt): seq<Arg> {
    match o case Flag(a) => [a] case Pair(n, v) => [n, v]
  }

  function PrintOpts(opts: seq<Opt>): seq<Arg> {
    if opts == [] then [] else PrintOpt(opts[0]) + PrintOpts(opts[1..])
  }

  /** What stands after the options. */
  function Tail(layer: Layer, inner: Invocation): seq<Arg> {
    (if layer.dashes then [DASHES] else []) + layer.positionals + [inner.program] + inner.args
  }

  function Print(layer: Layer, inner: Invocation): seq<Arg> {
    PrintOpts(layer.opts) + Tail(layer, inner)
  }

  predicate OptOk(valued: set<string>, o: Opt) {
    match o
    case Flag(a) => a.Text? && LooksLikeOption(a.text) && a != DASHES && a.text !in valued
    case Pair(n, _) => n.Text? && n.text in valued
  }

  function Head(layer: Layer, inner: Invocation): Arg {
    if layer.positionals != [] then layer.positionals[0] else inner.program
  }

  /** The layer is written as its wrapper accepts it. */
  predicate LayerOk(w: Wrapper, layer: Layer, inner: Invocation) {
    if w.Nohup? then PassedOk(layer, inner) else ScannedOk(Valued(w), Positionals(w), layer, inner)
  }

  predicate PassedOk(layer: Layer, inner: Invocation) {
    layer.opts == [] && layer.positionals == [] && (!layer.dashes ==> inner.program != DASHES)
  }

  predicate ScannedOk(valued: set<string>, positionals: nat, layer: Layer, inner: Invocation) {
    && |layer.positionals| == positionals
    && (forall k :: 0 <= k < |layer.opts| ==> OptOk(valued, layer.opts[k]))
    && (!layer.dashes ==> Head(layer, inner).Text? && !LooksLikeOption(Head(layer, inner).text))
  }

  /** What takes a value is itself an option, and is not the end of the options. */
  ghost predicate OnlyOptions(valued: set<string>) {
    forall text :: text in valued ==> LooksLikeOption(text) && Text(text) != DASHES
  }

  lemma ValuedLookLikeOptions(w: Wrapper)
    ensures OnlyOptions(Valued(w))
  {
  }

  lemma {:induction false} ScanSkips(valued: set<string>, args: seq<Arg>, index: nat, opts: seq<Opt>, rest: seq<Arg>)
    requires OnlyOptions(valued) && index <= |args| && args[index..] == PrintOpts(opts) + rest
    requires forall k :: 0 <= k < |opts| ==> OptOk(valued, opts[k])
    ensures Scan(valued, args, index) == Scan(valued, args, index + |PrintOpts(opts)|)
    decreases |opts|
  {
    if opts != [] {
      var o, tail := opts[0], opts[1..];
      var next := index + |PrintOpt(o)|;
      SliceStep(args, index, PrintOpt(o), PrintOpts(tail), rest);
      ScanOne(valued, args, index, o);
      ScanSkips(valued, args, next, tail, rest);
      assert index + |PrintOpts(opts)| == next + |PrintOpts(tail)|;
    }
  }

  lemma SliceStep(args: seq<Arg>, index: nat, a: seq<Arg>, b: seq<Arg>, c: seq<Arg>)
    requires a != [] && index <= |args| && args[index..] == (a + b) + c
    ensures index + |a| <= |args| && args[index + |a|..] == b + c && args[index] == a[0]
  {
    assert args[index..][|a|..] == b + c;
    assert args[index..][0] == a[0];
  }

  lemma ScanOne(valued: set<string>, args: seq<Arg>, index: nat, o: Opt)
    requires OnlyOptions(valued) && OptOk(valued, o) && index < |args| && args[index] == PrintOpt(o)[0]
    ensures Scan(valued, args, index) == Scan(valued, args, index + |PrintOpt(o)|)
  {
  }

  lemma TailAt(layer: Layer, inner: Invocation)
    ensures var k := (if layer.dashes then 1 else 0) + |layer.positionals|;
            At(Tail(layer, inner), k) == Some(inner)
    ensures Tail(layer, inner)[0] == if layer.dashes then DASHES else Head(layer, inner)
  {
    var k := (if layer.dashes then 1 else 0) + |layer.positionals|;
    assert Tail(layer, inner)[k] == inner.program && Tail(layer, inner)[k + 1..] == inner.args;
  }

  lemma AtShifted(a: seq<Arg>, b: seq<Arg>, k: nat)
    ensures At(a + b, |a| + k) == At(b, k)
  {
    if k < |b| {
      assert (a + b)[|a| + k + 1..] == b[k + 1..];
    }
  }

  lemma PassesPrinted(layer: Layer, inner: Invocation)
    requires PassedOk(layer, inner)
    ensures Passthrough(Print(layer, inner)) == Some(inner)
  {
    TailAt(layer, inner);
    assert Print(layer, inner) == Tail(layer, inner);
  }

  lemma ScansPrinted(valued: set<string>, positionals: nat, layer: Layer, inner: Invocation)
    requires OnlyOptions(valued) && ScannedOk(valued, positionals, layer, inner)
    ensures var end := Scan(valued, Print(layer, inner), 0);
            end.Some? && At(Print(layer, inner), end.value + positionals) == Some(inner)
  {
    TailAt(layer, inner);
    ScansToTail(valued, layer.opts, Tail(layer, inner));
    AtShifted(PrintOpts(layer.opts), Tail(layer, inner), (if layer.dashes then 1 else 0) + positionals);
  }

  /** Unwrapping undoes printing. */
  lemma UnwrapsPrinted(w: Wrapper, layer: Layer, inner: Invocation)
    requires LayerOk(w, layer, inner)
    ensures Subcommand(w, Print(layer, inner)) == Some(inner)
  {
    if w.Nohup? {
      PassesPrinted(layer, inner);
    } else {
      ValuedLookLikeOptions(w);
      ScansPrinted(Valued(w), Positionals(w), layer, inner);
    }
  }

  /** The scan stops where the options do, after the dashes if there are any. */
  lemma ScansToTail(valued: set<string>, opts: seq<Opt>, tail: seq<Arg>)
    requires OnlyOptions(valued) && tail != [] && forall k :: 0 <= k < |opts| ==> OptOk(valued, opts[k])
    requires tail[0] == DASHES || (tail[0].Text? && !LooksLikeOption(tail[0].text))
    ensures Scan(valued, PrintOpts(opts) + tail, 0) == Some(|PrintOpts(opts)| + if tail[0] == DASHES then 1 else 0)
  {
    var args := PrintOpts(opts) + tail;
    assert args[0..] == args;
    ScanSkips(valued, args, 0, opts, tail);
    assert args[|PrintOpts(opts)|] == tail[0];
  }

  /** The arguments up to `end` are these options, and what follows is not another one. */
  ghost predicate Spells(valued: set<string>, args: seq<Arg>, index: nat, end: nat, opts: seq<Opt>, dashes: bool) {
    && index <= end < |args| && args[index..end] == PrintOpts(opts) + (if dashes then [DASHES] else [])
    && (forall k :: 0 <= k < |opts| ==> OptOk(valued, opts[k]))
    && (!dashes ==> args[end].Text? && !LooksLikeOption(args[end].text))
  }

  lemma OneOptMore(valued: set<string>, args: seq<Arg>, index: nat, end: nat, o: Opt, opts: seq<Opt>, dashes: bool)
    requires Spells(valued, args, index + |PrintOpt(o)|, end, opts, dashes)
    requires OptOk(valued, o) && args[index..index + |PrintOpt(o)|] == PrintOpt(o)
    ensures Spells(valued, args, index, end, [o] + opts, dashes)
  {
    var step := |PrintOpt(o)|;
    assert ([o] + opts)[1..] == opts;
    assert args[index..end] == args[index..index + step] + args[index + step..end];
  }

  /** An option that the scan passes, with its value if it takes one. */
  lemma OptionAt(valued: set<string>, args: seq<Arg>, index: nat) returns (o: Opt)
    requires index < |args| && Scan(valued, args, index).Some? && Scan(valued, args, index).value < |args|
    requires args[index] != DASHES && LooksLikeOption(args[index].text)
    ensures OptOk(valued, o) && index + |PrintOpt(o)| <= Scan(valued, args, index).value
    ensures PrintOpt(o) == args[index..index + |PrintOpt(o)|]
    ensures Scan(valued, args, index + |PrintOpt(o)|) == Scan(valued, args, index)
  {
    o := if args[index].text in valued then Pair(args[index], args[index + 1]) else Flag(args[index]);
  }

  lemma {:induction false} ScanReads(valued: set<string>, args: seq<Arg>, index: nat)
    returns (opts: seq<Opt>, dashes: bool)
    requires Scan(valued, args, index).Some? && Scan(valued, args, index).value < |args|
    ensures Spells(valued, args, index, Scan(valued, args, index).value, opts, dashes)
    decreases |args| - index
  {
    opts, dashes := [], args[index] == DASHES;
    var end := Scan(valued, args, index).value;
    if !dashes && LooksLikeOption(args[index].text) {
      var o := OptionAt(valued, args, index);
      opts, dashes := ScanReads(valued, args, index + |PrintOpt(o)|);
      OneOptMore(valued, args, index, end, o, opts, dashes);
      opts := [o] + opts;
    }
  }

  lemma RestOf(args: seq<Arg>, end: nat, k: nat, inner: Invocation)
    requires At(args, end + k) == Some(inner)
    ensures args == args[0..end] + (args[end..end + k] + [inner.program] + inner.args)
  {
  }

  lemma Glue(a: seq<Arg>, b: seq<Arg>, c: seq<Arg>, p: Arg, d: seq<Arg>)
    ensures (a + b) + (c + [p] + d) == a + (b + c + [p] + d)
  {
  }

  /** And everything that can be unwrapped is the printing of some layer. */
  lemma UnwrappedIsPrinted(w: Wrapper, args: seq<Arg>) returns (layer: Layer)
    requires Subcommand(w, args).Some?
    ensures LayerOk(w, layer, Subcommand(w, args).value)
    ensures Print(layer, Subcommand(w, args).value) == args
  {
    if w.Nohup? {
      layer := PassedThrough(args);
    } else {
      layer := ReadLayer(Valued(w), Positionals(w), args);
    }
  }

  lemma PassedThrough(args: seq<Arg>) returns (layer: Layer)
    requires Passthrough(args).Some?
    ensures PassedOk(layer, Passthrough(args).value)
    ensures Print(layer, Passthrough(args).value) == args
  {
    var inner := Passthrough(args).value;
    layer := Layer([], args[0] == DASHES, []);
    assert args == Tail(layer, inner);
    assert [] + Tail(layer, inner) == Tail(layer, inner);
  }

  lemma ReadLayer(valued: set<string>, positionals: nat, args: seq<Arg>) returns (layer: Layer)
    requires Scan(valued, args, 0).Some? && At(args, Scan(valued, args, 0).value + positionals).Some?
    ensures ScannedOk(valued, positionals, layer, At(args, Scan(valued, args, 0).value + positionals).value)
    ensures Print(layer, At(args, Scan(valued, args, 0).value + positionals).value) == args
  {
    var end := Scan(valued, args, 0).value;
    var inner := At(args, end + positionals).value;
    var opts, dashes := ScanReads(valued, args, 0);
    layer := Layer(opts, dashes, args[end..end + positionals]);
    assert Head(layer, inner) == args[end];
    RestOf(args, end, positionals, inner);
    Glue(PrintOpts(opts), if dashes then [DASHES] else [], layer.positionals, inner.program, inner.args);
  }

  // ---------------------------------------------------------------- the tables, by what they do

  lemma {:induction false} LastSegmentOf(dir: string, name: string)
    requires '/' !in name
    ensures LastSegment(dir + "/" + name) == name && LastSegment(name) == name
    decreases |name|
  {
    if name != "" {
      var init, last := name[..|name|-1], name[|name|-1];
      assert name == init + [last] && last in name;
      assert (dir + "/" + name)[..|dir + "/" + name|-1] == dir + "/" + init;
      LastSegmentOf(dir, init);
    } else {
      assert dir + "/" + name == dir + "/";
    }
  }

  /** A name without anything special about it. */
  predicate PlainName(name: string) {
    name != "" && forall i :: 0 <= i < |name| ==> 'a' <= name[i] <= 'z' || '0' <= name[i] <= '9'
  }

  /** A program is judged by the last component of its path, wherever it is. */
  lemma BasenameAnywhere(dir: string, name: string)
    requires PlainName(name)
    ensures Basename(Text(dir + "/" + name)) == Some(name) && Basename(Text(name)) == Some(name)
  {
    LastSegmentOf(dir, name);
    assert name[0] != '.';
    assert FileName(dir + "/" + name) == Some(name) && FileName(name) == Some(name);
    assert LowerAll(name) == name;
    PlainKeepsSuffix(name);
  }

  lemma PlainKeepsSuffix(name: string)
    requires PlainName(name)
    ensures StripExecutableSuffix(name) == name
  {
    if |name| >= 4 {
      var tail := name[|name| - 4..];
      assert tail[0] == name[|name| - 4] != '.';
    }
  }

  /** The five wrappers are known wherever they are. */
  lemma WrappersAnywhere(dir: string, name: string, w: Wrapper)
    requires || (name == "timeout" && w == Timeout) || (name == "nice" && w == Nice) || (name == "nohup" && w == Nohup)
             || (name == "setsid" && w == Setsid) || (name == "stdbuf" && w == Stdbuf)
    ensures WrapperOf(Text(dir + "/" + name)) == Some(w)
  {
    BasenameAnywhere(dir, name);
  }

  /** Letter case and an executable's suffix are of no account. */
  lemma SuffixesAndCase(name: string, suffix: string)
    requires suffix in {".exe", ".cmd", ".bat", ".com"}
    ensures StripExecutableSuffix(LowerAll(name + suffix)) == LowerAll(name)
  {
    var s := LowerAll(name + suffix);
    assert s[|s| - 4..] == suffix;
    assert s[..|s| - 4] == LowerAll(name);
  }

  /** A name that is not ASCII is no known program. */
  lemma OnlyAsciiIsKnown(dir: string, name: string)
    requires '/' !in name && name !in {"", ".", ".."}
    ensures (exists i :: 0 <= i < |name| && name[i] as int >= 128) <==> Basename(Text(dir + "/" + name)) == None
  {
    LastSegmentOf(dir, name);
    assert name[|name|-1] in name;
    assert FileName(dir + "/" + name) == Some(name);
    var known := Basename(Text(dir + "/" + name));
    assert known == if IsAscii(name) then Some(StripExecutableSuffix(LowerAll(name))) else None;
  }

  /** Shells, interpreters and package runners are opaque wherever they are. */
  lemma LaunchersAnywhere(dir: string, name: string)
    requires || name in {"env", "sh", "bash", "dash", "zsh", "fish", "ksh", "csh", "tcsh", "cmd", "powershell", "pwsh"}
             || name in {"node", "nodejs", "deno", "bun", "ruby", "perl", "php", "lua", "npm", "npx", "pnpm", "yarn"}
             || name in {"python", "python3", "python27", "pythonw", "pip", "pip3"}
    ensures IsOpaque(Text(dir + "/" + name))
  {
    LauncherNames(name);
    BasenameAnywhere(dir, name);
  }

  lemma LauncherNames(name: string)
    requires || name in {"env", "sh", "bash", "dash", "zsh", "fish", "ksh", "csh", "tcsh", "cmd", "powershell", "pwsh"}
             || name in {"node", "nodejs", "deno", "bun", "ruby", "perl", "php", "lua", "npm", "npx", "pnpm", "yarn"}
             || name in {"python", "python3", "python27", "pythonw", "pip", "pip3"}
    ensures OpaqueName(name) && PlainName(name)
  {
  }

  /** So are all versions of Python and pip. */
  lemma VersionsAreOpaque(family: string, version: string)
    requires family in {"python", "pythonw", "pip"}
    requires forall i :: 0 <= i < |version| ==> '0' <= version[i] <= '9' || version[i] == '.'
    ensures OpaqueName(family + version)
  {
    assert VersionOf(family + version, family);
  }

  /** A text that no scan takes for an option. */
  predicate Plain(a: Arg) {
    a.Text? && (a.text == "" || a.text == "-" || a.text[0] != '-')
  }

  /** `nice`: what these options take is passed over. */
  lemma NiceTakes(option: string, v: Arg, p: Arg, rest: seq<Arg>)
    requires option in {"-n", "--adjustment"} && Plain(p)
    ensures Subcommand(Nice, [Text(option), v, p] + rest) == Some(Invocation(p, rest))
  {
    var args := [Text(option), v, p] + rest;
    assert Scan(Valued(Nice), args, 2) == Some(2);
    assert args[3..] == rest;
  }

  /** `stdbuf` the same. */
  lemma StdbufTakes(option: string, v: Arg, p: Arg, rest: seq<Arg>)
    requires option in {"-i", "-o", "-e"} && Plain(p)
    ensures Subcommand(Stdbuf, [Text(option), v, p] + rest) == Some(Invocation(p, rest))
  {
    var args := [Text(option), v, p] + rest;
    assert Scan(Valued(Stdbuf), args, 2) == Some(2);
    assert args[3..] == rest;
  }

  /** `timeout` the same, and its duration besides. */
  lemma TimeoutTakes(option: string, v: Arg, duration: Arg, p: Arg, rest: seq<Arg>)
    requires option in {"-k", "--kill-after", "-s", "--signal"} && Plain(duration)
    ensures Subcommand(Timeout, [Text(option), v, duration, p] + rest) == Some(Invocation(p, rest))
  {
    var args := [Text(option), v, duration, p] + rest;
    assert Scan(Valued(Timeout), args, 2) == Some(2);
    assert args[4..] == rest;
  }

  /** Any other option, of any of the four, stands for itself only. */
  lemma OthersTakeNothing(w: Wrapper, option: string, p: Arg, rest: seq<Arg>)
    requires !w.Nohup? && !w.Timeout? && |option| > 1 && option[0] == '-' && option != "--" && Plain(p)
    requires w.Nice? ==> option !in {"-n", "--adjustment"}
    requires w.Stdbuf? ==> option !in {"-i", "-o", "-e"}
    ensures Subcommand(w, [Text(option), p] + rest) == Some(Invocation(p, rest))
  {
    var args := [Text(option), p] + rest;
    assert Scan(Valued(w), args, 1) == Some(1);
    assert args[2..] == rest;
  }

  lemma OthersOfTimeout(option: string, duration: Arg, p: Arg, rest: seq<Arg>)
    requires |option| > 1 && option[0] == '-' && option != "--" && Plain(duration)
    requires option !in {"-k", "--kill-after", "-s", "--signal"}
    ensures Subcommand(Timeout, [Text(option), duration, p] + rest) == Some(Invocation(p, rest))
  {
    var args := [Text(option), duration, p] + rest;
    assert Scan(Valued(Timeout), args, 1) == Some(1);
    assert args[3..] == rest;
  }

  /** `nohup` passes everything on, after at most one `--`. */
  lemma NohupPasses(p: Arg, rest: seq<Arg>)
    ensures Subcommand(Nohup, [Text("--"), p] + rest) == Some(Invocation(p, rest))
    ensures p != Text("--") ==> Subcommand(Nohup, [p] + rest) == Some(Invocation(p, rest))
  {
    assert ([Text("--"), p] + rest)[2..] == rest && ([p] + rest)[1..] == rest;
  }

  // ---------------------------------------------------------------- nesting

  datatype Wrapping = Wrapping(program: Arg, layer: Layer)

  /** A command inside any number of wrappers, the outermost first. */
  function Nested(wrappings: seq<Wrapping>, core: Invocation): Invocation {
    if wrappings == [] then core
    else Invocation(wrappings[0].program, Print(wrappings[0].layer, Nested(wrappings[1..], core)))
  }

  ghost predicate NestedOk(wrappings: seq<Wrapping>, core: Invocation) {
    wrappings == []
    || (&& WrapperOf(wrappings[0].program).Some?
        && LayerOk(WrapperOf(wrappings[0].program).value, wrappings[0].layer, Nested(wrappings[1..], core))
        && NestedOk(wrappings[1..], core))
  }

  /** However deep it is nested, a command is judged by what it is: wrapping neither hides an opaque
      launcher nor makes one up. */
  lemma {:induction false} NestingIsTransparent(wrappings: seq<Wrapping>, core: Invocation)
    requires NestedOk(wrappings, core)
    ensures UsesOpaqueLauncher(Nested(wrappings, core)) <==> UsesOpaqueLauncher(core)
    ensures |Chain(Nested(wrappings, core))| == |wrappings| + |Chain(core)|
    ensures Chain(Nested(wrappings, core))[|wrappings|..] == Chain(core)
    decreases |wrappings|
  {
    if wrappings != [] {
      var inner := Nested(wrappings[1..], core);
      NestingIsTransparent(wrappings[1..], core);
      OneMore(wrappings, core);
      ChainOnward(wrappings[0].program, Chain(inner), |wrappings|, Chain(core));
    }
  }

  lemma OneMore(wrappings: seq<Wrapping>, core: Invocation)
    requires NestedOk(wrappings, core) && wrappings != []
    ensures var i, inner := Nested(wrappings, core), Nested(wrappings[1..], core);
            Chain(i) == [wrappings[0].program] + Chain(inner) && (UsesOpaqueLauncher(i) <==> UsesOpaqueLauncher(inner))
  {
    WrapperAdds(wrappings[0], Nested(wrappings[1..], core));
  }

  lemma ChainOnward(first: Arg, chain: seq<Arg>, n: nat, rest: seq<Arg>)
    requires 0 < n <= |chain| + 1 && chain[n - 1..] == rest
    ensures ([first] + chain)[n..] == rest
  {
  }

  /** One wrapper puts its own name before the chain, which is not that of a launcher. */
  lemma WrapperAdds(first: Wrapping, inner: Invocation)
    requires WrapperOf(first.program).Some? && LayerOk(WrapperOf(first.program).value, first.layer, inner)
    ensures var i := Invocation(first.program, Print(first.layer, inner));
            Chain(i) == [first.program] + Chain(inner) && (UsesOpaqueLauncher(i) <==> UsesOpaqueLauncher(inner))
  {
    UnwrapsPrinted(WrapperOf(first.program).value, first.layer, inner);
    WrappersAreNotOpaque(first.program);
  }
}
