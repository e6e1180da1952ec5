# fisher, in Dafny

A model of the core of `fisher`, a command-line tool that encrypts or decrypts files and directory
trees in place with Blowfish, Twofish or Threefish. It covers four parts, one module each.

- `Ciphers` (`ciphers.dfy`) covers the `Threefisher` enum and the `Fishers` dispatch.
  - Each Threefish variant fixes the block width: 256, 512 or 1024 bits.
  - A keyed primitive is a pair of functions on blocks. They are required to be inverse
    permutations of the blocks of that width.
  - The Blowfish and Twofish primitives are opaque replies, so the error and `Ok(false)` paths of
    the file engine stay reachable.
  - `Fishers.IsBlockCipher` singles out a cipher of any of the three algorithms that accepts every
    block of its width, keeps the width, and whose decryption undoes its encryption. Every
    Threefish instance whose key pair is valid (`Threefisher.Valid`) is one.
- `FileEngine` (`file_engine.dfy`) covers `Fisher::modify_file`.
  - It reads the file into zero-padded blocks of `block_size` bytes, one fresh buffer per read.
  - It encrypts or decrypts each block in file order. The first block the cipher does not accept
    returns its error before the file is reopened.
  - It then truncates the file and writes the blocks back. The write loop stops at the first
    block whose contents equal the final block's, which it writes without its trailing zero
    bytes. Every later block is dropped.
  - Two specification functions describe the same outcome:
    - `ReadFrom` follows the read loop cursor by cursor.
    - `ModifiedFile` is `Written(Transformed(Chunks(content)))`.

    `ReadFromIsTransformed` proves them equal.
  - On that basis the module proves the round trip for any block cipher. It also proves the
    cases where the trailing-zero rule loses data.
- `TreeWalk` (`tree_walk.dfy`) covers `Fisher::run` and `Fisher::iter_dir`, walked one entry at a
  time.
  - The file system is a tree of entries.
  - Each directory is walked where its thread would be spawned. Only whether that thread panics
    is kept.
  - The walk is stated for any transform of file contents. `Fisher.Performs` ties that transform
    to `ModifiedFile`.
- `Cli` (`cli.dfy`) covers the argument decisions of `main`: help, direction, block size, path
  flag and path check, verbose mode, the blank-password check, and algorithm precedence.
  - `Decide` states the outcome for any `Vocabulary` of tokens.
  - `ParseArgs` follows `main`'s early returns and loops, with the source's own tokens (`MAIN`).

Behaviour of the code worth knowing:

- **The final block is recognised by its contents, not its position.** A repeated final block
  therefore cuts the rewrite short (`RepeatedBlockIsDropped`).
- **`.DS_Store` is skipped only inside directories.** A top-level path named `.DS_Store` goes
  through `modify_file` like any other file (`RunModifiesTopLevelPaths`).
- **An error in a directory thread makes the whole run panic.** The thread's `expect` panics,
  and so does `join().unwrap()` in `run` (`RunPanicsIffSomeDirectoryPanicked`). The error is not
  silently lost. A failing top-level file wins over that panic, even one handled after the
  directory: `run` returns the file's error before it joins any thread
  (`RunFailsAtFirstFailingFile`).
- **A block of the wrong width panics in `clone_from_slice`.** It does not produce an error
  value, so it appears as a precondition of the Threefish block methods.
- **The round trip needs two extra conditions.** The final plaintext block must have no earlier
  copy, and its ciphertext must not be all zero bytes.
  - Trailing zeros stripped from the final ciphertext block come back as the padding of the final
    read on decryption.
  - An all-zero final ciphertext block is not written at all, so decryption loses the file's
    final block (`ZeroCipherBlockIsLost`).

## Model

| member | source | states |
|---|---|---|
| Common.ByteVec.constructor | src/fish.rs:181 | the block handed to the cipher holds exactly the bytes of the buffer read |
| Ciphers.Threefisher.Width | src/enum.rs:7-11 | the byte width of each variant is its state size in bits divided by 8 (256, 512, 1024) |
| Ciphers.Threefisher.EncryptedBlock | src/enum.rs:23-41 | the forward transform keeps the block's length |
| Ciphers.Threefisher.DecryptedBlock | src/enum.rs:55-73 | the backward transform keeps the block's length |
| Ciphers.Threefisher.EncryptBlock | src/enum.rs:14-45 | always answers `Ok(true)`, and replaces the block by the variant's encryption of it |
| Ciphers.Threefisher.DecryptBlock | src/enum.rs:47-77 | always answers `Ok(true)`, and replaces the block by the variant's decryption of it |
| Ciphers.DecryptUndoesEncrypt | src/enum.rs:14-77 | `decrypt_block` after `encrypt_block` on the same variant restores the block |
| Ciphers.EncryptUndoesDecrypt | src/enum.rs:14-77 | `encrypt_block` after `decrypt_block` on the same variant restores the block |
| Ciphers.EncryptInjective | src/enum.rs:14-45 | two blocks have the same encryption exactly when they are equal |
| Ciphers.Fishers.Width | src/main.rs:99-112 | the block width is positive, and for Threefish it is the variant's width |
| Ciphers.FishersWidths | src/main.rs:99-112 | Blowfish blocks are 8 bytes, Twofish blocks 16, Threefish blocks 32, 64 or 128 |
| Ciphers.Fishers.Crypt | src/fish.rs:183-188 | with Threefish the reply is `Ok(true)` with a block of the same length, and the inverse transform gives the input back |
| Ciphers.CryptAccepts | src/fish.rs:183-188 | a block cipher of any algorithm answers `Ok(true)` in either direction and keeps the block's width |
| Ciphers.CryptUndone | src/fish.rs:183-188 | with a block cipher, `decrypt_block` undoes `encrypt_block` and the other way round |
| Ciphers.CryptInjective | src/fish.rs:183-188 | with a block cipher, two blocks give the same output exactly when they are equal |
| Ciphers.Fishers.EncryptBlock | src/fish.rs:185 | the status returned and the block left behind are the cipher's reply to the encryption of the old block |
| Ciphers.Fishers.DecryptBlock | src/fish.rs:187 | the status returned and the block left behind are the cipher's reply to the decryption of the old block |
| FileEngine.Chunks | src/fish.rs:169-178 | every block read has exactly `block_size` bytes, and there are none exactly when the file is empty |
| FileEngine.ChunksArePadded | src/fish.rs:169-178 | the blocks read hold the file's bytes in order, then fewer than `block_size` zero bytes |
| FileEngine.WholeBlocksAreNotPadded | src/fish.rs:169-178 | a file whose length is a multiple of the block size is read without any padding |
| FileEngine.ChunksOfWholeBlocks | src/fish.rs:169-178 | a file written as whole blocks reads back as exactly those blocks |
| FileEngine.FinalBlockIsTail | src/fish.rs:169-178 | the final block of a non-empty file is its last bytes, after all earlier blocks, followed by zeros |
| FileEngine.Transformed | src/fish.rs:183-194 | a successful transform yields one block per block read |
| FileEngine.TransformedBlocks | src/fish.rs:183-190 | a successful transform holds, block for block, what the cipher made of each block |
| FileEngine.TransformedFailsAtFirstRejection | src/fish.rs:183-194 | the transform fails exactly when some block is not accepted, and then with the error of the first such block |
| FileEngine.ReadFromIsTransformed | src/fish.rs:167-195 | the read loop, cursor by cursor, yields the transform of the blocks of the rest of the file |
| FileEngine.ReadModifiedBlocks | src/fish.rs:167-195 | the read loop returns what `ReadFrom` gives from the start of the file |
| FileEngine.ReadAndCrypt | src/fish.rs:169-194 | one pass stops at end of file exactly when the cursor is at the end; otherwise the outcome from the cursor is decided by this block's reply, then the rest of the file |
| FileEngine.ReadBlock | src/fish.rs:171-173 | a fresh zero buffer filled by one read holds the next bytes of the file, as many as fit, then zeros |
| FileEngine.Read | src/fish.rs:173 | a read copies the next bytes of the file, as many as fit, to the front of the buffer and keeps the rest of it |
| FileEngine.CryptBlock | src/fish.rs:183-188 | the status and the new block are the cipher's reply for the direction chosen by `crypt` |
| FileEngine.StripTrailingZeros | src/fish.rs:207-216 | the written block is a prefix of the block that does not end in a zero byte, and only zero bytes are removed |
| FileEngine.StripPadding | src/fish.rs:207-216 | zero bytes appended to a block are removed again by the trailing-zero rule |
| FileEngine.TrailingZeros | src/fish.rs:207-216 | the padding count leaves, when cut off, the block without its trailing zero bytes |
| FileEngine.WriteBlocks | src/fish.rs:204-222 | the truncated file receives `Written(modified_blocks)` |
| FileEngine.WriteUntilFirstCopy | src/fish.rs:204-222 | the write loop writes every block before the first copy of the final block, then that copy stripped |
| FileEngine.WrittenUpToFirstCopyOfLast | src/fish.rs:204-222 | the rewrite is every block before the first block equal to the final one, then the final block stripped; later blocks are dropped |
| FileEngine.WrittenIsNoLongerThanBlocks | src/fish.rs:204-222 | the rewrite never holds more bytes than the transformed blocks |
| FileEngine.WrittenWithUniqueLast | src/fish.rs:204-222 | when the final block has no earlier copy, every other block is written verbatim and the final one stripped |
| FileEngine.ModifyFile | src/fish.rs:153-225 | `modify_file` leaves the file holding `ModifiedFile(...)`, or returns its error |
| FileEngine.EmptyFileStaysEmpty | src/fish.rs:175-178 | an empty file yields no block and stays empty |
| FileEngine.ModifyFailsAtFirstRejection | src/fish.rs:183-194 | `modify_file` fails exactly when some block is not accepted, with the first such block's error, before any write |
| FileEngine.CipherModifyLength | src/fish.rs:153-225 | with a block cipher `modify_file` succeeds and the file grows by less than one block |
| FileEngine.BlockCipherAcceptsAll | src/fish.rs:183-194 | with a block cipher the read loop never returns an error |
| FileEngine.CipherBlocks | src/fish.rs:183-190 | with a block cipher every block is accepted and becomes the cipher's output for it |
| FileEngine.EncryptionKeepsLastUnique | src/fish.rs:205 | a final plaintext block with no earlier copy gives a final ciphertext block with no earlier copy |
| FileEngine.EndsInNonZero | src/fish.rs:207-214 | a block ending in a non-zero byte is written whole |
| FileEngine.StrippedIsPadded | src/fish.rs:207-216 | a block is its stripped form followed by the zero bytes removed |
| FileEngine.ShortFinalChunk | src/fish.rs:169-178 | whole blocks followed by a short non-empty tail are read back as those blocks, then the tail zero-padded |
| FileEngine.DecryptingCiphertextBlocks | src/fish.rs:183-190 | decrypting the ciphertext blocks gives back the plaintext blocks |
| FileEngine.WrittenReadBack | src/fish.rs:169-178 | blocks with a unique final block, written and read back, come back whole when the final block is not all zero bytes, and without it when it is |
| FileEngine.DecryptAfterEncrypt | src/fish.rs:153-225 | with any block cipher, given a unique final block whose ciphertext is not all zero bytes, decrypting the encrypted file gives the plaintext blocks written with the trailing-zero rule |
| FileEngine.WrittenPlaintext | src/fish.rs:204-222 | writing the plaintext blocks restores a file ending in a non-zero byte and shortens one ending in a zero byte |
| FileEngine.ZeroCipherBlockIsLost | src/fish.rs:204-222 | a unique final block whose ciphertext is all zero bytes is not written, and decryption gives back the file without it |
| FileEngine.RoundTrip | src/fish.rs:153-225 | with any block cipher, decryption after encryption restores a file that is empty or ends in a non-zero byte, given a unique final block whose ciphertext is not all zero bytes |
| FileEngine.RoundTripDropsTrailingZeros | src/fish.rs:207-216 | under the same conditions a file ending in a zero byte comes back shorter |
| FileEngine.RepeatedBlockIsDropped | src/fish.rs:205 | a file made of one block twice is encrypted into that block's ciphertext, stripped: the second copy is dropped |
| TreeWalk.IterDir | src/fish.rs:104-151 | `iter_dir` leaves the directory's entries as `DirWalk` gives them, with whether a thread panicked |
| TreeWalk.DirWalkKeepsDsStores | src/fish.rs:133-138 | a `.DS_Store` file beneath a walked directory is never transformed, and every entry keeps its name and kind |
| TreeWalk.DirWalkPanicsIffSomeFileFails | src/fish.rs:115-151 | the walk of a directory panics exactly when some file beneath it, other than a `.DS_Store`, is not accepted by `modify_file` |
| TreeWalk.DirWalkModifiesEveryFile | src/fish.rs:115-151 | a walk that does not panic leaves every file beneath the directory, except `.DS_Store`, holding what `modify_file` made of it |
| TreeWalk.Run | src/fish.rs:46-102 | `run` leaves the top-level paths and ends as `RunWalk` gives |
| TreeWalk.RunPath | src/fish.rs:55-78 | one iteration either returns the file's error, which ends `run`, or handles the path in front of the rest; only a directory can panic |
| TreeWalk.JoinThreads | src/fish.rs:82-100 | joining the threads in order panics exactly when one of them panicked |
| TreeWalk.RunFailsAtFirstFailingFile | src/fish.rs:72-77 | `run` returns an error exactly when some top-level file is not accepted, and then it is the first such file's error |
| TreeWalk.RunPanicsIffSomeDirectoryPanicked | src/fish.rs:46-102 | without a failing top-level file, `run` panics exactly when some top-level directory's walk panicked, and returns `Ok` otherwise |
| TreeWalk.RunModifiesTopLevelPaths | src/fish.rs:54-100 | when `run` does not return an error, every top-level file, `.DS_Store` included, holds what `modify_file` made of it; when it finishes, every directory holds its walk |
| Cli.Position | src/main.rs:39-40 | the position found is an argument that is one of the tokens, and there is none exactly when no argument is |
| Cli.PositionIsFirst | src/main.rs:39-40 | no earlier argument is one of the tokens |
| Cli.HasAnyIffSomeArgument | src/main.rs:19-20 | the `args.contains` chain holds exactly when some argument is one of the tokens |
| Cli.ParseDigits | src/main.rs:42 | an accepted digit string has a value below 2^64 |
| Cli.ParseUsize | src/main.rs:42 | a parsed `usize` is below 2^64 |
| Cli.ParseDigitsAcceptsDigits | src/main.rs:42 | the digit loop accepts only strings made entirely of ASCII digits |
| Cli.ParseUsizeAcceptsNumerals | src/main.rs:42 | `parse::<usize>()` accepts only an optional `+` followed by at least one ASCII digit and nothing else, so any other argument after the block-size flag makes `unwrap` panic |
| Cli.ParseDecimal | src/main.rs:42 | every `usize` written in decimal parses back to itself |
| Cli.Supported | src/main.rs:43-56 | an unsupported size stops `main` with usage |
| Cli.SupportedSizes | src/main.rs:43-56 | 256, 512 and 1024 bits become 32, 64 and 128 bytes, the widths in `BLOCK_SIZES` are kept, and any other number prints usage |
| Cli.BlockSizeIsSupported | src/main.rs:39-59 | a block size `main` goes on with is one of `BLOCK_SIZES`, that is 256, 512 or 1024 bits |
| Cli.BlockSizeOfNumber | src/main.rs:39-59 | with the flag followed by a `usize`, the block size is that number's mapping |
| Cli.BlockSizePanics | src/main.rs:39-59 | `main` panics exactly when the flag is the last argument or is followed by a non-`usize`; without the flag the size is 128 bytes |
| Cli.ReadBlockSize | src/main.rs:39-59 | the block-size code of `main` gives `BlockSize` |
| Cli.KeptPaths | src/main.rs:72-84 | the path check stops only with a missing path |
| Cli.Existing | src/main.rs:72-84 | every path kept exists |
| Cli.KeptPathsAreTheExistingOnes | src/main.rs:72-84 | the path check keeps exactly the existing candidates in order, unless some candidate is missing and not a verbose token; then it stops at the first such one |
| Cli.CheckPaths | src/main.rs:70-84 | the path loop of `main` gives `KeptPaths` |
| Cli.TrimStart | src/main.rs:93 | the result does not start with white space, and is empty exactly when the input is all white space |
| Cli.TrimEnd | src/main.rs:93 | the result is a prefix of the input that does not end in white space |
| Cli.TrimStartDropsWhiteSpace | src/main.rs:93 | `trim_start` keeps a suffix of the input, and every character it removes is white space |
| Cli.TrimEndDropsWhiteSpace | src/main.rs:93 | `trim_end` keeps a prefix of the input, and every character it removes is white space |
| Cli.BlankIffAllWhiteSpace | src/main.rs:93 | a password is rejected as blank exactly when every character of it is white space |
| Cli.ParseArgs | src/main.rs:15-117 | `main`'s argument handling with its own tokens decides `Decide(MAIN, ...)` |
| Cli.DecidedRun | src/main.rs:15-117 | a configuration `main` goes on with is what each of its steps produced |
| Cli.HelpComesFirst | src/main.rs:18-23 | help is printed exactly when a help token appears, before any other check |
| Cli.DirectionPrecedence | src/main.rs:25-35 | without a direction token `main` prints usage, and a configuration encrypts exactly when an encrypt token appears |
| Cli.NoPathFlagIsUsage | src/main.rs:61-68 | past the help, direction and block-size checks, an argument vector without `-p` or `-P` prints usage |
| Cli.AlgorithmPrecedence | src/main.rs:98-117 | Blowfish wins over Twofish, which wins over Threefish; they force 8-byte and 16-byte blocks, and Threefish keeps a parsed width from `BLOCK_SIZES`; with none of them `main` stops |
| Cli.ConfiguredPathsAndPassword | src/main.rs:61-96 | a configuration holds exactly the existing arguments after the first path flag, in order, and a password with a non-white-space character |
| Cli.MissingPathIsAfterPathFlag | src/main.rs:61-84 | a missing-path stop names an argument after the path flag that is missing and not a verbose token |

## Left out

- File-system I/O is not modelled; a file is its contents as a byte sequence.
  - The errors of `File::open`, `read`, `OpenOptions::open` and `write` are left out. So are a
    file left truncated by a failed write, and short reads before the end of a regular file.
  - Every `write` is taken to write the whole block; the byte count it returns is ignored.
  - `modify_file`'s result is the new contents or the cipher's error.
- Threads and the mutex-guarded handle list are left out. Each directory is walked to completion
  where its thread is spawned, and only whether the thread panicked is kept. Interleaving,
  completion order and the shared handle list are not modelled.
  - When `run` returns a file's error or panics in `join().unwrap()`, the process exits while
    unjoined threads may still be running. Their directories may be left untouched or truncated
    part-way through a rewrite. The directory contents the model gives in those outcomes are only
    the model's; the program promises them only when `run` finishes.
- `read_dir` is replaced by the given order of a directory's entries. Its errors, and the `?` on
  each entry (which panics the thread through `expect`), are left out. So are symlinks and paths
  that are neither files nor directories.
- The Threefish, Blowfish and Twofish primitives belong to external crates.
  - Threefish is a keyed pair of inverse permutations of the blocks of the variant's width.
  - Blowfish and Twofish are opaque replies. Their code is not part of this model, so that they
    are block ciphers is a hypothesis (`Fishers.IsBlockCipher`) of the lemmas that need it.
- `generate_key`, `Fisher::new` and the definition of the `Fishers` enum are not part of this
  model; `Fishers` is reconstructed from how `modify_file` and `main` use it.
- Console output is left out: help and usage text, verbose messages, "Finished!".
- The password prompt (`rpassword`) and `Path::exists` are inputs: a password string, and a
  predicate on path strings.
- `Box::leak`, the `'static` lifetimes and the call of `run` at the end of `main` are left out.
  `Decide` ends at the configuration, and `run` is modelled by `TreeWalk.Run`.
- `usize` is taken to be 64 bits wide; only block-size parsing depends on it.
- TreeWalk.RunWalk: takes the top-level paths to be distinct files and directories, none inside
  another, each with its own copy of its bytes. `main` keeps duplicate paths.
  - With `-p a a`, `run` calls `modify_file` on `a` twice, and `a` ends up with the transform
    applied twice.
  - With `-p d d/x`, the main thread and the thread walking `d` both rewrite `x`, in an order
    the threads decide.
  - For such inputs, `RunModifiesTopLevelPaths` describes each path as if it were alone.
- TreeWalk.DirWalk, TreeWalk.RunWalk and the lemmas about them are stated for any transform of
  file contents rather than for `ModifiedFile` itself. `TreeWalk.Fisher.Performs` ties the
  transform to `modify_file` wherever `IterDir` and `Run` call it.
- Cli.Decide and its lemmas are stated for any `Vocabulary` of tokens. `Cli.ParseArgs` runs with
  `MAIN`, the token lists `main` spells out.
