/** The argument decisions of `main` (`src/main.rs`): help, direction, block size, paths, verbose
    mode, the password check and the algorithm. The argument vector includes the program name, as
    `std::env::args()` does; whether a path exists and the password typed at the prompt are inputs. */
module Cli {

  datatype Option<T> = None | Some(value: T)

  /** The block widths in bytes that Threefish supports. */
  const BLOCK_SIZES: seq<nat> := [32, 64, 128]

  /** One past the largest `usize` (64-bit targets). */
  const USIZE_LIMIT: nat := 0x1_0000_0000_0000_0000

  /** The tokens `main` compares arguments with, one list per question it asks. */
  datatype Vocabulary = Vocabulary(
    help: seq<string>,
    encrypt: seq<string>,
    decrypt: seq<string>,
    blockSizeFlags: seq<string>,
    pathFlags: seq<string>,
    verbose: seq<string>,
    blowfish: seq<string>,
    twofish: seq<string>,
    threefish: seq<string>)

  /** The tokens `main` spells out. The decisions below are stated for any vocabulary, and
      `ParseArgs` runs with this one. */
  const MAIN: Vocabulary := Vocabulary(
    ["--help", "-h", "--HELP", "-H"],
    ["encrypt", "e", "ENCRYPT", "E"],
    ["decrypt", "d", "DECRYPT", "D"],
    ["--BLOCKSIZE", "-B", "--blocksize", "-b"],
    ["-p", "-P"],
    ["-v", "-V", "--verbose", "--VERBOSE"],
    ["blowfish", "bf", "BLOWFISH", "BF", "--bf", "--BF"],
    ["twofish", "tw", "TWOFISH", "TW", "--tw", "--TW"],
    ["threefish", "tf", "THREEFISH", "TF", "--tf", "--TF"])

  /** What `main` settles on before building the `Fisher`: the algorithm number (0 Blowfish,
      1 Twofish, 2 Threefish), the direction, the block size in bytes, the paths, verbose mode and
      the passphrase. */
  datatype Config = Config(algorithm: nat, crypt: bool, blockSize: nat, paths: seq<string>,
                           verbose: bool, passphrase: string)

  /** How `main` ends its argument handling: by printing help or usage and returning `Ok`, by a
      panic, by one of its messages and returning `Ok`, or by going on with a configuration. */
  datatype Decision =
    | Help
    | Usage
    | Panic
    | MissingPath(path: string)
    | EmptyPassword
    | NoAlgorithm
    | Run(config: Config)

  /** A step of `main`: its value, or the decision that ends `main` there. */
  datatype Stage<T> = Continue(value: T) | Stop(decision: Decision) {
    predicate IsFailure() { Stop? }
    function PropagateFailure<U>(): Stage<U> requires Stop? { Stop(decision) }
    function Extract(): T requires Continue? { value }
  }

  /** Some argument is one of `tokens`, as a chain of `args.contains(..)` tests finds. */
  predicate HasAny(args: seq<string>, tokens: seq<string>)
  {
    args != [] && (args[0] in tokens || HasAny(args[1..], tokens))
  }

  /** `args.iter().position(|x| tokens.contains(x))`: the first argument that is one of `tokens`. */
  function Position(args: seq<string>, tokens: seq<string>): (r: Option<nat>)
    ensures r.Some? ==> r.value < |args| && args[r.value] in tokens
    ensures r.None? <==> !HasAny(args, tokens)
  {
    if args == [] then None
    else if args[0] in tokens then Some(0)
    else
      match Position(args[1..], tokens)
      case None => None
      case Some(k) => Some(k + 1)
  }

  /** `HasAny` holds exactly when some argument is one of `tokens`. */
  lemma {:induction false} HasAnyIffSomeArgument(args: seq<string>, tokens: seq<string>)
    ensures HasAny(args, tokens) <==> exists i :: 0 <= i < |args| && args[i] in tokens
  {
    if args != [] {
      HasAnyIffSomeArgument(args[1..], tokens);
      if HasAny(args[1..], tokens) {
        var i :| 0 <= i < |args[1..]| && args[1..][i] in tokens;
        assert args[i + 1] == args[1..][i];
      }
      if exists i :: 0 <= i < |args| && args[i] in tokens {
        var i :| 0 <= i < |args| && args[i] in tokens;
        if i > 0 {
          assert args[1..][i - 1] == args[i];
        }
      }
    }
  }

  /** The position found is the first argument that is one of `tokens`. */
  lemma {:induction false} PositionIsFirst(args: seq<string>, tokens: seq<string>)
    ensures var r := Position(args, tokens);
            r.Some? ==> forall j :: 0 <= j < r.value ==> args[j] !in tokens
  {
    if args != [] && args[0] !in tokens {
      PositionIsFirst(args[1..], tokens);
      var r := Position(args, tokens);
      if r.Some? {
        forall j | 0 <= j < r.value ensures args[j] !in tokens {
          if j > 0 {
            assert args[j] == args[1..][j - 1];
          }
        }
      }
    }
  }

  predicate IsDigit(c: char)
  {
    '0' <= c <= '9'
  }

  function DigitValue(c: char): nat
    requires IsDigit(c)
  {
    c as nat - '0' as nat
  }

  /** One step of the decimal accumulation: `acc * 10 + digit`, checked for overflow. */
  function Step(acc: nat, c: char): Option<nat>
  {
    if !IsDigit(c) then None
    else if acc * 10 + DigitValue(c) < USIZE_LIMIT then Some(acc * 10 + DigitValue(c))
    else None
  }

  /** The digit loop of `usize::from_str`: every character must be an ASCII digit, and the value
      accumulated from `acc` must stay below `USIZE_LIMIT`. */
  function ParseDigits(s: string, acc: nat): (r: Option<nat>)
    ensures r.Some? ==> r.value < USIZE_LIMIT || (s == [] && r.value == acc)
  {
    if s == [] then Some(acc)
    else
      match Step(acc, s[0])
      case None => None
      case Some(next) => ParseDigits(s[1..], next)
  }

  /** `s.parse::<usize>()`: an optional `+`, then at least one ASCII digit and nothing else, with
      a value that fits in a `usize`. */
  function ParseUsize(s: string): (r: Option<nat>)
    ensures r.Some? ==> r.value < USIZE_LIMIT
  {
    if s == [] || s == "+" then None
    else if s[0] == '+' then ParseDigits(s[1..], 0)
    else ParseDigits(s, 0)
  }

  /** The digit loop accepts only strings of ASCII digits. */
  lemma {:induction false} ParseDigitsAcceptsDigits(s: string, acc: nat)
    ensures ParseDigits(s, acc).Some? ==> forall i :: 0 <= i < |s| ==> IsDigit(s[i])
  {
    if s != [] && Step(acc, s[0]).Some? {
      ParseDigitsAcceptsDigits(s[1..], Step(acc, s[0]).value);
      assert forall i :: 1 <= i < |s| ==> s[i] == s[1..][i - 1];
    }
  }

  /** `parse::<usize>()` accepts only an optional `+` followed by at least one ASCII digit and
      nothing else: any other argument makes the `unwrap` after it panic. */
  lemma ParseUsizeAcceptsNumerals(s: string)
    ensures ParseUsize(s).Some? ==>
              && s != [] && s != "+"
              && forall i :: 0 <= i < |s| ==> IsDigit(s[i]) || (i == 0 && s[i] == '+')
  {
    if s != [] && s != "+" {
      if s[0] == '+' {
        ParseDigitsAcceptsDigits(s[1..], 0);
        assert forall i :: 1 <= i < |s| ==> s[i] == s[1..][i - 1];
      } else {
        ParseDigitsAcceptsDigits(s, 0);
      }
    }
  }

  /** `n` in decimal, as `n.to_string()` writes it. */
  function Decimal(n: nat): (s: string)
    ensures s != [] && IsDigit(s[0])
  {
    var last := ('0' as nat + n % 10) as char;
    if n < 10 then [last] else Decimal(n / 10) + [last]
  }

  /** The digit loop over `s` followed by one more character. */
  lemma {:induction false} ParseDigitsSnoc(s: string, c: char, acc: nat)
    ensures ParseDigits(s + [c], acc) == match ParseDigits(s, acc)
                                         case None => None
                                         case Some(v) => Step(v, c)
  {
    if s == [] {
      assert [] + [c] == [c];
      assert [c][1..] == [];
    } else {
      assert (s + [c])[0] == s[0];
      assert (s + [c])[1..] == s[1..] + [c];
      match Step(acc, s[0])
      case None =>
      case Some(next) => ParseDigitsSnoc(s[1..], c, next);
    }
  }

  lemma {:induction false} ParseDigitsDecimal(n: nat)
    requires n < USIZE_LIMIT
    ensures ParseDigits(Decimal(n), 0) == Some(n)
  {
    var last := ('0' as nat + n % 10) as char;
    if n < 10 {
      assert [last][1..] == [];
    } else {
      ParseDigitsDecimal(n / 10);
      ParseDigitsSnoc(Decimal(n / 10), last, 0);
    }
  }

  /** Parsing undoes printing: every `usize` written in decimal parses back to itself. */
  lemma ParseDecimal(n: nat)
    requires n < USIZE_LIMIT
    ensures ParseUsize(Decimal(n)) == Some(n)
  {
    ParseDigitsDecimal(n);
    assert Decimal(n) != "+";
  }

  /** The block-size flag: absent, the default 128; present, the next argument parsed as a
      `usize` (a panic when it is missing or does not parse), then 256, 512 and 1024 bits become
      32, 64 and 128 bytes, the byte widths themselves are kept, and anything else prints usage. */
  function BlockSize(v: Vocabulary, args: seq<string>): Stage<nat>
  {
    SizeAfter(args, Position(args, v.blockSizeFlags))
  }

  function SizeAfter(args: seq<string>, flag: Option<nat>): Stage<nat>
  {
    match flag
    case None => Continue(128)
    case Some(k) =>
      if k + 1 >= |args| then Stop(Panic)
      else
        match ParseUsize(args[k + 1])
        case None => Stop(Panic)
        case Some(bitSize) => Supported(bitSize)
  }

  /** The size given after the flag: 256, 512 and 1024 bits become 32, 64 and 128 bytes, the byte
      widths themselves are kept, and anything else prints usage. */
  function Supported(bitSize: nat): (r: Stage<nat>)
    ensures r.Stop? ==> r.decision == Usage
  {
    if bitSize == 256 then Continue(32)
    else if bitSize == 512 then Continue(64)
    else if bitSize == 1024 then Continue(128)
    else if bitSize in BLOCK_SIZES then Continue(bitSize)
    else Stop(Usage)
  }

  /** Whatever the block-size arguments, a block size `main` goes on with is a supported Threefish
      width, that is, 256, 512 or 1024 bits. */
  lemma BlockSizeIsSupported(v: Vocabulary, args: seq<string>)
    ensures BlockSize(v, args).Continue? ==> BlockSize(v, args).value in BLOCK_SIZES
    ensures BlockSize(v, args).Continue? ==> BlockSize(v, args).value * 8 in [256, 512, 1024]
  {
  }

  /** Bit sizes map to byte widths, byte widths are kept, and every other size prints usage. */
  lemma SupportedSizes(n: nat)
    ensures n in [256, 512, 1024] ==> Supported(n) == Continue(n / 8)
    ensures n in BLOCK_SIZES ==> Supported(n) == Continue(n)
    ensures n !in [256, 512, 1024] && n !in BLOCK_SIZES ==> Supported(n) == Stop(Usage)
  {
  }

  /** With the flag at `k` and a `usize` after it, the block size is that number's mapping. */
  lemma BlockSizeAfterFlag(args: seq<string>, k: nat, n: nat)
    requires k + 1 < |args|
    requires ParseUsize(args[k + 1]) == Some(n)
    ensures SizeAfter(args, Some(k)) == Supported(n)
  {
  }

  /** The block-size flag followed by an argument that parses as the `usize` `n` (as `n` written
      in decimal does, by `ParseDecimal`): bit sizes map to byte widths, byte widths are kept, and
      every other number prints usage. */
  lemma BlockSizeOfNumber(v: Vocabulary, args: seq<string>, k: nat, n: nat)
    requires Position(args, v.blockSizeFlags) == Some(k) && k + 1 < |args|
    requires ParseUsize(args[k + 1]) == Some(n)
    ensures BlockSize(v, args) == Supported(n)
  {
    BlockSizeAfterFlag(args, k, n);
  }

  /** `main` panics over the block size exactly when the flag is the last argument or the
      argument after it is not a `usize`; without the flag the default is 128 bytes. */
  lemma BlockSizePanics(v: Vocabulary, args: seq<string>)
    ensures BlockSize(v, args) == Stop(Panic) <==>
              HasAny(args, v.blockSizeFlags)
              && var k := Position(args, v.blockSizeFlags).value;
                 k + 1 >= |args| || ParseUsize(args[k + 1]).None?
    ensures !HasAny(args, v.blockSizeFlags) ==> BlockSize(v, args) == Continue(128)
  {
  }

  /** Encrypt tokens win over decrypt tokens; with neither, usage. */
  function Direction(v: Vocabulary, args: seq<string>): Stage<bool>
  {
    if HasAny(args, v.encrypt) then Continue(true)
    else if HasAny(args, v.decrypt) then Continue(false)
    else Stop(Usage)
  }

  /** Every argument after the first `-p` or `-P`; without one, usage. */
  function PathArgs(v: Vocabulary, args: seq<string>): Stage<seq<string>>
  {
    match Position(args, v.pathFlags)
    case None => Stop(Usage)
    case Some(k) => Continue(args[k + 1..])
  }

  /** The paths already kept, in front of the outcome for the rest. */
  function Prepend(done: seq<string>, s: Stage<seq<string>>): Stage<seq<string>>
  {
    match s
    case Continue(rest) => Continue(done + rest)
    case Stop(d) => Stop(d)
  }

  /** The path check: an existing path is kept; a missing one is skipped when it is a verbose
      token and otherwise ends `main` with a message. */
  function KeptPaths(v: Vocabulary, candidates: seq<string>, pathExists: string -> bool): (r: Stage<seq<string>>)
    ensures r.Stop? ==> r.decision.MissingPath?
  {
    if candidates == [] then Continue([])
    else
      var path := candidates[0];
      if !pathExists(path) then
        if path in v.verbose then KeptPaths(v, candidates[1..], pathExists)
        else Stop(MissingPath(path))
      else Prepend([path], KeptPaths(v, candidates[1..], pathExists))
  }

  /** The candidates that exist, in order. */
  function Existing(candidates: seq<string>, pathExists: string -> bool): (r: seq<string>)
    ensures forall i :: 0 <= i < |r| ==> pathExists(r[i])
  {
    if candidates == [] then []
    else if pathExists(candidates[0]) then [candidates[0]] + Existing(candidates[1..], pathExists)
    else Existing(candidates[1..], pathExists)
  }

  /** A missing candidate that is not a verbose token. */
  predicate Unskippable(v: Vocabulary, path: string, pathExists: string -> bool)
  {
    !pathExists(path) && path !in v.verbose
  }

  /** The path check keeps exactly the existing candidates, in order, unless some candidate is
      missing without being a verbose token; then it stops at the first such candidate. */
  lemma {:induction false} KeptPathsAreTheExistingOnes(v: Vocabulary, candidates: seq<string>, pathExists: string -> bool)
    ensures var r := KeptPaths(v, candidates, pathExists);
            r.Continue? <==> forall i :: 0 <= i < |candidates| ==> !Unskippable(v, candidates[i], pathExists)
    ensures var r := KeptPaths(v, candidates, pathExists);
            r.Continue? ==> r.value == Existing(candidates, pathExists)
    ensures var r := KeptPaths(v, candidates, pathExists);
            r.Stop? ==> exists k :: 0 <= k < |candidates| && r.decision == MissingPath(candidates[k])
                                    && Unskippable(v, candidates[k], pathExists)
                                    && forall j :: 0 <= j < k ==> !Unskippable(v, candidates[j], pathExists)
  {
    if candidates != [] {
      var rest := candidates[1..];
      KeptPathsAreTheExistingOnes(v, rest, pathExists);
      forall i | 1 <= i < |candidates| ensures candidates[i] == rest[i - 1] {
      }
      var r := KeptPaths(v, candidates, pathExists);
      var t := KeptPaths(v, rest, pathExists);
      if !Unskippable(v, candidates[0], pathExists) && t.Stop? {
        var k :| 0 <= k < |rest| && t.decision == MissingPath(rest[k]) && Unskippable(v, rest[k], pathExists)
                 && forall j :: 0 <= j < k ==> !Unskippable(v, rest[j], pathExists);
        assert candidates[k + 1] == rest[k];
        assert forall j :: 0 <= j < k + 1 ==> !Unskippable(v, candidates[j], pathExists);
      }
    }
  }

  /** Rust's `char::is_whitespace`: the Unicode White_Space property. */
  predicate IsWhiteSpace(c: char)
  {
    var n := c as int;
    (0x09 <= n <= 0x0D) || n == 0x20 || n == 0x85 || n == 0xA0 || n == 0x1680
    || (0x2000 <= n <= 0x200A) || n == 0x2028 || n == 0x2029 || n == 0x202F || n == 0x205F
    || n == 0x3000
  }

  /** `str::trim_start`. */
  function TrimStart(s: string): (r: string)
    ensures r == [] || !IsWhiteSpace(r[0])
    ensures (r == []) <==> forall i :: 0 <= i < |s| ==> IsWhiteSpace(s[i])
  {
    if s != [] && IsWhiteSpace(s[0]) then
      var r := TrimStart(s[1..]);
      assert forall i :: 1 <= i < |s| ==> s[i] == s[1..][i - 1];
      r
    else s
  }

  /** `str::trim_end`. */
  function TrimEnd(s: string): (r: string)
    ensures r == [] || !IsWhiteSpace(r[|r| - 1])
    ensures r <= s
  {
    if s != [] && IsWhiteSpace(s[|s| - 1]) then TrimEnd(s[..|s| - 1]) else s
  }

  /** `trim_start` removes a prefix of white space and nothing else: the result is a suffix of
      the input, and every character before it is white space. */
  lemma {:induction false} TrimStartDropsWhiteSpace(s: string)
    ensures var r := TrimStart(s);
            && |r| <= |s| && r == s[|s| - |r|..]
            && forall i :: 0 <= i < |s| - |r| ==> IsWhiteSpace(s[i])
  {
    if s != [] && IsWhiteSpace(s[0]) {
      TrimStartDropsWhiteSpace(s[1..]);
      assert forall i :: 1 <= i < |s| ==> s[i] == s[1..][i - 1];
    }
  }

  /** `trim_end` removes a suffix of white space and nothing else: the result is a prefix of the
      input, and every character after it is white space. */
  lemma {:induction false} TrimEndDropsWhiteSpace(s: string)
    ensures var r := TrimEnd(s);
            r <= s && forall i :: |r| <= i < |s| ==> IsWhiteSpace(s[i])
  {
    if s != [] && IsWhiteSpace(s[|s| - 1]) {
      TrimEndDropsWhiteSpace(s[..|s| - 1]);
    }
  }

  /** `str::trim`. */
  function Trim(s: string): string
  {
    TrimEnd(TrimStart(s))
  }

  /** A password is blank, `trim()` leaving nothing of it, exactly when every character of it is
      white space; the empty password is blank. */
  lemma BlankIffAllWhiteSpace(s: string)
    ensures Trim(s) == [] <==> forall i :: 0 <= i < |s| ==> IsWhiteSpace(s[i])
  {
    var t := TrimStart(s);
    if t != [] {
      assert TrimEnd(t) != [] by {
        TrimEndKeepsNonWhiteFront(t);
      }
    }
  }

  lemma {:induction false} TrimEndKeepsNonWhiteFront(s: string)
    requires s != [] && !IsWhiteSpace(s[0])
    ensures TrimEnd(s) != []
  {
    if IsWhiteSpace(s[|s| - 1]) {
      TrimEndKeepsNonWhiteFront(s[..|s| - 1]);
    }
  }

  /** A blank password ends `main` with its message. */
  function Password(password: string): Stage<string>
  {
    if Trim(password) == [] then Stop(EmptyPassword) else Continue(password)
  }

  /** The algorithm and the block size it imposes. */
  datatype Choice = Choice(algorithm: nat, blockSize: nat)

  /** Blowfish tokens win over Twofish tokens, which win over Threefish tokens: Blowfish forces
      8-byte blocks, Twofish 16-byte blocks, and Threefish keeps the block size parsed before;
      with none of them, `main` stops with "No algorithm specified". */
  function Algorithm(v: Vocabulary, args: seq<string>, blockSize: nat): Stage<Choice>
  {
    if HasAny(args, v.blowfish) then Continue(Choice(0, 8))
    else if HasAny(args, v.twofish) then Continue(Choice(1, 16))
    else if HasAny(args, v.threefish) then Continue(Choice(2, blockSize))
    else Stop(NoAlgorithm)
  }

  /** The steps of `main` after the help check, in the source's order. */
  function Configure(v: Vocabulary, args: seq<string>, pathExists: string -> bool, password: string): Stage<Config>
  {
    var crypt :- Direction(v, args);
    var blockSize :- BlockSize(v, args);
    var candidates :- PathArgs(v, args);
    var paths :- KeptPaths(v, candidates, pathExists);
    var verbose := HasAny(args, v.verbose);
    var passphrase :- Password(password);
    var choice :- Algorithm(v, args, blockSize);
    Continue(Config(choice.algorithm, crypt, choice.blockSize, paths, verbose, passphrase))
  }

  /** What `main` decides for the argument vector `args`, given which paths exist and the
      password typed at the prompt. */
  function Decide(v: Vocabulary, args: seq<string>, pathExists: string -> bool, password: string): Decision
  {
    if HasAny(args, v.help) then Help
    else
      match Configure(v, args, pathExists, password)
      case Continue(config) => Run(config)
      case Stop(d) => d
  }

  /** `main` up to the creation of the `Fisher`: early returns, the reassigned block size and
      the loop that pushes the checked paths. */
  method ParseArgs(args: seq<string>, pathExists: string -> bool, password: string) returns (d: Decision)
    ensures d == Decide(MAIN, args, pathExists, password)
  {
    var v := MAIN;
    if HasAny(args, v.help) {
      return Help;
    }

    var crypt: bool;
    if HasAny(args, v.encrypt) {
      crypt := true;
    } else if HasAny(args, v.decrypt) {
      crypt := false;
    } else {
      return Usage;
    }

    var size := ReadBlockSize(v, args);
    if size.Stop? {
      return size.decision;
    }
    var blockSize := size.value;

    var pathIndex := Position(args, v.pathFlags);
    if pathIndex.None? {
      return Usage;
    }
    var tmpPaths := args[pathIndex.value + 1..];
    var checked := CheckPaths(v, tmpPaths, pathExists);
    if checked.Stop? {
      return checked.decision;
    }
    var paths := checked.value;

    var verbose := HasAny(args, v.verbose);

    if Trim(password) == [] {
      return EmptyPassword;
    }

    var algorithm: nat;
    if HasAny(args, v.blowfish) {
      blockSize := 8;
      algorithm := 0;
    } else if HasAny(args, v.twofish) {
      blockSize := 16;
      algorithm := 1;
    } else if HasAny(args, v.threefish) {
      algorithm := 2;
    } else {
      return NoAlgorithm;
    }

    return Run(Config(algorithm, crypt, blockSize, paths, verbose, password));
  }

  /** The block-size part of `main`: find the flag, parse the argument after it, and map it. */
  method ReadBlockSize(v: Vocabulary, args: seq<string>) returns (s: Stage<nat>)
    ensures s == BlockSize(v, args)
  {
    var blockSizeIndex := Position(args, v.blockSizeFlags);
    if blockSizeIndex.None? {
      return Continue(128);
    }
    if blockSizeIndex.value + 1 >= |args| {
      return Stop(Panic);  // `args[index + 1]` is out of bounds
    }
    var parsed := ParseUsize(args[blockSizeIndex.value + 1]);
    if parsed.None? {
      return Stop(Panic);  // `unwrap` on the parse error
    }
    var bitSize := parsed.value;
    if bitSize == 256 {
      s := Continue(32);
    } else if bitSize == 512 {
      s := Continue(64);
    } else if bitSize == 1024 {
      s := Continue(128);
    } else if bitSize in BLOCK_SIZES {
      s := Continue(bitSize);
    } else {
      s := Stop(Usage);
    }
  }

  /** The path loop of `main`: existing paths are pushed in order, missing verbose tokens are
      skipped, and the first other missing path ends `main`. */
  method CheckPaths(v: Vocabulary, tmpPaths: seq<string>, pathExists: string -> bool) returns (s: Stage<seq<string>>)
    ensures s == KeptPaths(v, tmpPaths, pathExists)
  {
    var paths: seq<string> := [];
    assert tmpPaths[0..] == tmpPaths;
    var all := KeptPaths(v, tmpPaths, pathExists);
    if all.Continue? {
      assert [] + all.value == all.value;
    }
    for i := 0 to |tmpPaths|
      invariant all == Prepend(paths, KeptPaths(v, tmpPaths[i..], pathExists))
    {
      var path := tmpPaths[i];
      assert tmpPaths[i..][0] == path && tmpPaths[i..][1..] == tmpPaths[i + 1..];
      if !pathExists(path) {
        if path in v.verbose {
          continue;
        }
        return Stop(MissingPath(path));
      }
      PrependOne(paths, path, KeptPaths(v, tmpPaths[i + 1..], pathExists));
      paths := paths + [path];
    }
    assert paths + [] == paths;
    s := Continue(paths);
  }

  lemma PrependOne(done: seq<string>, path: string, s: Stage<seq<string>>)
    ensures Prepend(done, Prepend([path], s)) == Prepend(done + [path], s)
  {
    if s.Continue? {
      assert done + ([path] + s.value) == (done + [path]) + s.value;
    }
  }

  /** A configuration `main` goes on with is what each of its steps produced. */
  lemma DecidedRun(v: Vocabulary, args: seq<string>, pathExists: string -> bool, password: string)
    requires Decide(v, args, pathExists, password).Run?
    ensures var c := Decide(v, args, pathExists, password).config;
            && !HasAny(args, v.help)
            && Direction(v, args) == Continue(c.crypt)
            && BlockSize(v, args).Continue?
            && PathArgs(v, args).Continue?
            && KeptPaths(v, PathArgs(v, args).value, pathExists) == Continue(c.paths)
            && c.verbose == HasAny(args, v.verbose)
            && Password(password) == Continue(c.passphrase)
            && Algorithm(v, args, BlockSize(v, args).value) == Continue(Choice(c.algorithm, c.blockSize))
  {
  }

  /** Help is printed exactly when a help token appears anywhere, before any other check. */
  lemma HelpComesFirst(v: Vocabulary, args: seq<string>, pathExists: string -> bool, password: string)
    ensures Decide(v, args, pathExists, password) == Help <==> HasAny(args, v.help)
  {
  }

  /** Without a help token: no direction token means usage, and a configuration encrypts exactly
      when an encrypt token appears, even beside a decrypt token. */
  lemma DirectionPrecedence(v: Vocabulary, args: seq<string>, pathExists: string -> bool, password: string)
    requires !HasAny(args, v.help)
    ensures !HasAny(args, v.encrypt) && !HasAny(args, v.decrypt) ==> Decide(v, args, pathExists, password) == Usage
    ensures var d := Decide(v, args, pathExists, password);
            d.Run? ==> (d.config.crypt <==> HasAny(args, v.encrypt))
  {
  }

  /** A configuration `main` goes on with names the algorithm by precedence, and its block size
      fits the algorithm: 8 bytes for Blowfish, 16 for Twofish, and for Threefish the width the
      block-size flag chose, one of `BLOCK_SIZES`. */
  lemma AlgorithmPrecedence(v: Vocabulary, args: seq<string>, pathExists: string -> bool, password: string)
    ensures var d := Decide(v, args, pathExists, password);
            d.Run? ==>
              && (d.config.algorithm == 0 <==> HasAny(args, v.blowfish))
              && (d.config.algorithm == 1 <==> !HasAny(args, v.blowfish) && HasAny(args, v.twofish))
              && (d.config.algorithm == 2 <==> !HasAny(args, v.blowfish) && !HasAny(args, v.twofish))
              && (d.config.algorithm == 0 ==> d.config.blockSize == 8)
              && (d.config.algorithm == 1 ==> d.config.blockSize == 16)
              && (d.config.algorithm == 2 ==>
                    HasAny(args, v.threefish) && BlockSize(v, args) == Continue(d.config.blockSize)
                    && d.config.blockSize in BLOCK_SIZES)
    ensures Decide(v, args, pathExists, password) == NoAlgorithm ==>
              !HasAny(args, v.blowfish) && !HasAny(args, v.twofish) && !HasAny(args, v.threefish)
  {
    BlockSizeIsSupported(v, args);
    if Decide(v, args, pathExists, password).Run? {
      DecidedRun(v, args, pathExists, password);
    }
  }

  /** Past the help, direction and block-size checks, an argument vector without a path flag
      prints usage. */
  lemma NoPathFlagIsUsage(v: Vocabulary, args: seq<string>, pathExists: string -> bool, password: string)
    requires !HasAny(args, v.help) && Direction(v, args).Continue? && BlockSize(v, args).Continue?
    requires !HasAny(args, v.pathFlags)
    ensures Decide(v, args, pathExists, password) == Usage
  {
  }

  /** A configuration `main` goes on with holds exactly the existing arguments after the first
      path flag, in order, and a non-blank passphrase. */
  lemma ConfiguredPathsAndPassword(v: Vocabulary, args: seq<string>, pathExists: string -> bool, password: string)
    ensures var d := Decide(v, args, pathExists, password);
            d.Run? ==>
              && HasAny(args, v.pathFlags)
              && d.config.paths == Existing(args[Position(args, v.pathFlags).value + 1..], pathExists)
              && (forall i :: 0 <= i < |d.config.paths| ==> pathExists(d.config.paths[i]))
              && d.config.passphrase == password
              && exists i :: 0 <= i < |password| && !IsWhiteSpace(password[i])
    ensures Decide(v, args, pathExists, password) == EmptyPassword ==>
              forall i :: 0 <= i < |password| ==> IsWhiteSpace(password[i])
  {
    BlankIffAllWhiteSpace(password);
    if Decide(v, args, pathExists, password).Run? {
      DecidedRun(v, args, pathExists, password);
      KeptPathsAreTheExistingOnes(v, PathArgs(v, args).value, pathExists);
    }
  }

  /** A missing path ends `main` only when it comes after the path flag and is not a verbose
      token. */
  lemma MissingPathIsAfterPathFlag(v: Vocabulary, args: seq<string>, pathExists: string -> bool, password: string)
    ensures var d := Decide(v, args, pathExists, password);
            d.MissingPath? ==>
              && HasAny(args, v.pathFlags)
              && d.path in args[Position(args, v.pathFlags).value + 1..]
              && Unskippable(v, d.path, pathExists)
  {
    if HasAny(args, v.pathFlags) {
      KeptPathsAreTheExistingOnes(v, args[Position(args, v.pathFlags).value + 1..], pathExists);
    }
  }
}
