/** The per-file transform of `Fisher::modify_file` (`src/fish.rs`): read the file in chunks of
    `block_size` bytes, zero-padding a short last chunk; encrypt or decrypt every chunk in file
    order; then rewrite the file with every block before the one taken as "last" verbatim and
    that block without its trailing zero bytes. The block taken as "last" is the first block
    whose bytes equal the final block's, as the source compares contents, not positions.

    A file's contents are a `seq<u8>`: the method reads them with a cursor and returns what the
    file holds afterwards, or the error that stopped it before the file was reopened. */
module FileEngine {
  import opened Common
  import opened Ciphers

  function Min(a: nat, b: nat): nat
  {
    if a <= b then a else b
  }

  /** The blocks the read loop hands to the cipher: each read fills a fresh zero buffer of
      `blockSize` bytes, so a short final read is zero-padded, and a read of nothing ends the loop. */
  function Chunks(content: seq<u8>, blockSize: nat): (blocks: seq<seq<u8>>)
    requires blockSize > 0
    ensures forall i :: 0 <= i < |blocks| ==> |blocks[i]| == blockSize
    ensures blocks == [] <==> content == []
    decreases |content|
  {
    if content == [] then []
    else
      var n := Min(blockSize, |content|);
      [content[..n] + Zeros(blockSize - n)] + Chunks(content[n..], blockSize)
  }

  /** The blocks hold the file's bytes in order, followed by fewer than `blockSize` zeros. */
  lemma {:induction false} ChunksArePadded(content: seq<u8>, blockSize: nat)
    requires blockSize > 0
    ensures var c := Concat(Chunks(content, blockSize));
            |content| <= |c| < |content| + blockSize && c == content + Zeros(|c| - |content|)
    decreases |content|
  {
    if content != [] {
      var n := Min(blockSize, |content|);
      var blocks := Chunks(content, blockSize);
      assert Concat(blocks) == content[..n] + Zeros(blockSize - n) + Concat(Chunks(content[n..], blockSize));
      if n < blockSize {
        assert content[..n] == content && content[n..] == [];
      } else {
        ChunksArePadded(content[n..], blockSize);
        PaddedFront(content, n, Concat(Chunks(content[n..], blockSize)));
      }
    }
  }

  lemma PaddedFront(content: seq<u8>, n: nat, c: seq<u8>)
    requires n <= |content| && |content[n..]| <= |c|
    requires c == content[n..] + Zeros(|c| - |content[n..]|)
    ensures content[..n] + Zeros(0) + c == content + Zeros(|c| - |content[n..]|)
  {
    assert content[..n] + Zeros(0) == content[..n];
    assert content == content[..n] + content[n..];
  }

  /** A file whose length is a whole number of blocks gets no padding at all. */
  lemma WholeBlocksAreNotPadded(content: seq<u8>, blockSize: nat)
    requires blockSize > 0 && |content| % blockSize == 0
    ensures Concat(Chunks(content, blockSize)) == content
  {
    var count := |content| / blockSize;
    assert |content| == count * blockSize;
    CountedBlocksAreNotPadded(content, blockSize, count);
  }

  lemma {:induction false} CountedBlocksAreNotPadded(content: seq<u8>, blockSize: nat, count: nat)
    requires blockSize > 0 && |content| == count * blockSize
    ensures Concat(Chunks(content, blockSize)) == content
  {
    if content != [] {
      assert count >= 1;
      assert |content| - blockSize == (count - 1) * blockSize;
      CountedBlocksAreNotPadded(content[blockSize..], blockSize, count - 1);
      assert Zeros(0) == [];
      assert content == content[..blockSize] + content[blockSize..];
    }
  }

  /** Reading back a file made of whole blocks yields exactly those blocks. */
  lemma {:induction false} ChunksOfWholeBlocks(blocks: seq<seq<u8>>, blockSize: nat)
    requires blockSize > 0
    requires forall i :: 0 <= i < |blocks| ==> |blocks[i]| == blockSize
    ensures Chunks(Concat(blocks), blockSize) == blocks
  {
    if blocks != [] {
      var c := Concat(blocks);
      assert c == blocks[0] + Concat(blocks[1..]);
      assert c[..blockSize] == blocks[0];
      assert c[blockSize..] == Concat(blocks[1..]);
      ChunksOfWholeBlocks(blocks[1..], blockSize);
      assert Min(blockSize, |c|) == blockSize;
      assert c[..blockSize] + Zeros(0) == blocks[0];
      assert blocks == [blocks[0]] + blocks[1..];
    }
  }

  predicate Accepted(reply: Reply)
  {
    reply.status == Ok(true)
  }

  /** How a reply that is not `Ok(true)` surfaces: the cipher's own error, or `BlockFailed` for
      `Ok(false)`. */
  predicate RejectedWith(reply: Reply, e: Error)
  {
    reply.status == Err(e) || (reply.status == Ok(false) && e == BlockFailed)
  }

  predicate AllAccepted(fisher: Fishers, crypt: bool, blocks: seq<seq<u8>>)
    requires fisher.Valid()
    requires forall i :: 0 <= i < |blocks| ==> |blocks[i]| == fisher.Width()
  {
    forall i :: 0 <= i < |blocks| ==> Accepted(fisher.Crypt(crypt, blocks[i]))
  }

  /** One block through the cipher: a refusal (the cipher's error, or `BlockFailed` for
      `Ok(false)`) is the whole outcome; an accepted block is kept in front of `rest`. */
  function CryptThen(fisher: Fishers, crypt: bool, block: seq<u8>, rest: Result<seq<seq<u8>>>): Result<seq<seq<u8>>>
    requires fisher.Valid() && |block| == fisher.Width()
  {
    var reply := fisher.Crypt(crypt, block);
    match reply.status
    case Err(e) => Err(e)
    case Ok(accepted) => if !accepted then Err(BlockFailed) else Prefixed([reply.block], rest)
  }

  /** The vector of transformed blocks, collected in file order; the first block the cipher does
      not accept ends the whole operation with that block's error. */
  function Transformed(fisher: Fishers, crypt: bool, blocks: seq<seq<u8>>): (r: Result<seq<seq<u8>>>)
    requires fisher.Valid()
    requires forall i :: 0 <= i < |blocks| ==> |blocks[i]| == fisher.Width()
    ensures r.Ok? ==> |r.value| == |blocks|
  {
    if blocks == [] then Ok([])
    else CryptThen(fisher, crypt, blocks[0], Transformed(fisher, crypt, blocks[1..]))
  }

  /** A successful transform holds, block for block, what the cipher made of each block. */
  lemma {:induction false} TransformedBlocks(fisher: Fishers, crypt: bool, blocks: seq<seq<u8>>)
    requires fisher.Valid()
    requires forall i :: 0 <= i < |blocks| ==> |blocks[i]| == fisher.Width()
    ensures var r := Transformed(fisher, crypt, blocks);
            r.Ok? ==> forall i :: 0 <= i < |blocks| ==> fisher.Crypt(crypt, blocks[i]) == Reply(Ok(true), r.value[i])
  {
    var r := Transformed(fisher, crypt, blocks);
    if blocks != [] && r.Ok? {
      TransformedBlocks(fisher, crypt, blocks[1..]);
      forall i | 0 <= i < |blocks| ensures fisher.Crypt(crypt, blocks[i]) == Reply(Ok(true), r.value[i]) {
        if i > 0 {
          assert blocks[i] == blocks[1..][i - 1];
        }
      }
    }
  }

  /** The transform fails exactly when some block is not accepted, and then with the error of the
      first such block, every block before it having been accepted. */
  lemma {:induction false} TransformedFailsAtFirstRejection(fisher: Fishers, crypt: bool, blocks: seq<seq<u8>>)
    requires fisher.Valid()
    requires forall i :: 0 <= i < |blocks| ==> |blocks[i]| == fisher.Width()
    ensures Transformed(fisher, crypt, blocks).Err? <==> !AllAccepted(fisher, crypt, blocks)
    ensures Transformed(fisher, crypt, blocks).Err? ==>
              exists k :: 0 <= k < |blocks| && AllAccepted(fisher, crypt, blocks[..k])
                          && RejectedWith(fisher.Crypt(crypt, blocks[k]), Transformed(fisher, crypt, blocks).error)
  {
    if blocks != [] {
      var r := Transformed(fisher, crypt, blocks);
      TransformedFailsAtFirstRejection(fisher, crypt, blocks[1..]);
      if Accepted(fisher.Crypt(crypt, blocks[0])) {
        if r.Err? {
          var k :| 0 <= k < |blocks| - 1 && AllAccepted(fisher, crypt, blocks[1..][..k])
                   && RejectedWith(fisher.Crypt(crypt, blocks[1..][k]), r.error);
          assert blocks[..k + 1] == [blocks[0]] + blocks[1..][..k];
          assert AllAccepted(fisher, crypt, blocks[..k + 1]);
        } else {
          forall i | 0 <= i < |blocks| ensures Accepted(fisher.Crypt(crypt, blocks[i])) {
            if i > 0 { assert blocks[i] == blocks[1..][i - 1]; }
          }
        }
      } else {
        assert blocks[..0] == [];
      }
    }
  }

  /** `block` without its maximal run of trailing zero bytes. */
  function StripTrailingZeros(block: seq<u8>): (r: seq<u8>)
    ensures r <= block
    ensures forall i :: |r| <= i < |block| ==> block[i] == 0
    ensures r == [] || r[|r| - 1] != 0
    decreases |block|
  {
    if block != [] && block[|block| - 1] == 0 then StripTrailingZeros(block[..|block| - 1]) else block
  }

  /** Zeros appended to a block disappear again when its trailing zeros are stripped. */
  lemma {:induction false} StripPadding(s: seq<u8>, k: nat)
    ensures StripTrailingZeros(s + Zeros(k)) == StripTrailingZeros(s)
  {
    if k > 0 {
      var p := s + Zeros(k);
      assert p[..|p| - 1] == s + Zeros(k - 1);
      StripPadding(s, k - 1);
    } else {
      assert s + Zeros(0) == s;
    }
  }

  /** The write loop from the current block on: blocks are written verbatim until the first one
      equal to `last`, which is written stripped, and writing stops there. */
  function WriteUntil(blocks: seq<seq<u8>>, last: seq<u8>): seq<u8>
  {
    if blocks == [] then []
    else if blocks[0] == last then StripTrailingZeros(last)
    else blocks[0] + WriteUntil(blocks[1..], last)
  }

  /** What the rewritten file holds, given the transformed blocks. */
  function Written(blocks: seq<seq<u8>>): seq<u8>
  {
    if blocks == [] then [] else WriteUntil(blocks, blocks[|blocks| - 1])
  }

  /** The position of the first occurrence of `x` in `blocks`. */
  function IndexOf(blocks: seq<seq<u8>>, x: seq<u8>): (k: nat)
    requires x in blocks
    ensures k < |blocks| && blocks[k] == x
    ensures forall j :: 0 <= j < k ==> blocks[j] != x
  {
    if blocks[0] == x then 0 else 1 + IndexOf(blocks[1..], x)
  }

  lemma ConcatCons(b: seq<u8>, blocks: seq<seq<u8>>)
    ensures Concat([b] + blocks) == b + Concat(blocks)
  {
    assert ([b] + blocks)[1..] == blocks;
  }

  lemma {:induction false} WriteUntilFirstCopy(blocks: seq<seq<u8>>, last: seq<u8>, k: nat)
    requires k < |blocks| && blocks[k] == last
    requires forall j :: 0 <= j < k ==> blocks[j] != last
    ensures WriteUntil(blocks, last) == Concat(blocks[..k]) + StripTrailingZeros(last)
  {
    if k > 0 {
      var rest := blocks[1..];
      assert forall j :: 0 <= j < k - 1 ==> rest[j] == blocks[j + 1];
      WriteUntilFirstCopy(rest, last, k - 1);
      assert blocks[..k] == [blocks[0]] + rest[..k - 1];
      ConcatCons(blocks[0], rest[..k - 1]);
    } else {
      assert blocks[..0] == [];
    }
  }

  /** The rewritten file is every block before the first copy of the final block, verbatim,
      followed by that copy without its trailing zeros; every later block is dropped. */
  lemma WrittenUpToFirstCopyOfLast(blocks: seq<seq<u8>>)
    requires blocks != []
    ensures Written(blocks) == Concat(blocks[..IndexOf(blocks, blocks[|blocks| - 1])])
                               + StripTrailingZeros(blocks[|blocks| - 1])
  {
    var last := blocks[|blocks| - 1];
    WriteUntilFirstCopy(blocks, last, IndexOf(blocks, last));
  }

  /** The rewrite never holds more bytes than the transformed blocks. */
  lemma WrittenIsNoLongerThanBlocks(blocks: seq<seq<u8>>)
    ensures |Written(blocks)| <= |Concat(blocks)|
  {
    if blocks != [] {
      WriteUntilIsNoLonger(blocks, blocks[|blocks| - 1]);
    }
  }

  lemma {:induction false} WriteUntilIsNoLonger(blocks: seq<seq<u8>>, last: seq<u8>)
    ensures |WriteUntil(blocks, last)| <= |Concat(blocks)|
  {
    if blocks != [] && blocks[0] != last {
      WriteUntilIsNoLonger(blocks[1..], last);
    }
  }

  /** `modify_file`'s effect on a file holding `content`: the new contents, or the error that
      stopped it before the file was reopened for writing (the file is then unchanged). */
  function ModifiedFile(fisher: Fishers, crypt: bool, blockSize: nat, content: seq<u8>): Result<seq<u8>>
    requires fisher.Valid() && blockSize == fisher.Width()
  {
    var blocks :- Transformed(fisher, crypt, Chunks(content, blockSize));
    Ok(Written(blocks))
  }

  /** Prefix the blocks already collected to the outcome of the remaining ones. */
  function Prefixed(done: seq<seq<u8>>, r: Result<seq<seq<u8>>>): Result<seq<seq<u8>>>
  {
    match r
    case Ok(rest) => Ok(done + rest)
    case Err(e) => Err(e)
  }

  lemma PrefixedNothing(r: Result<seq<seq<u8>>>)
    ensures Prefixed([], r) == r
  {
    if r.Ok? {
      assert [] + r.value == r.value;
    }
  }

  /** One read: the chunk at the cursor is the next `blockSize` bytes of the file, zero-padded. */
  lemma ChunksAt(content: seq<u8>, pos: nat, blockSize: nat)
    requires blockSize > 0 && pos < |content|
    ensures var n := Min(blockSize, |content| - pos);
            Chunks(content[pos..], blockSize)
            == [content[pos..pos + n] + Zeros(blockSize - n)] + Chunks(content[pos + n..], blockSize)
  {
    var n := Min(blockSize, |content| - pos);
    assert content[pos..][..n] == content[pos..pos + n];
    assert content[pos..][n..] == content[pos + n..];
  }

  /** The outcome of the read loop from the cursor `pos` on: a zero-byte read ends it; otherwise
      the bytes read, zero-padded to the block width, go to the cipher, whose refusal ends the
      whole operation and whose block is otherwise kept in front of what the next reads yield. */
  function ReadFrom(fisher: Fishers, crypt: bool, content: seq<u8>, pos: nat): Result<seq<seq<u8>>>
    requires fisher.Valid() && pos <= |content|
    decreases |content| - pos
  {
    if pos == |content| then Ok([])
    else
      var n := Min(fisher.Width(), |content| - pos);
      CryptThen(fisher, crypt, content[pos..pos + n] + Zeros(fisher.Width() - n), ReadFrom(fisher, crypt, content, pos + n))
  }

  /** Reading from the cursor on transforms the chunks of the rest of the file: the loop's view
      of `modify_file` and the chunk view agree. */
  lemma {:induction false} ReadFromIsTransformed(fisher: Fishers, crypt: bool, content: seq<u8>, pos: nat)
    requires fisher.Valid() && pos <= |content|
    ensures ReadFrom(fisher, crypt, content, pos) == Transformed(fisher, crypt, Chunks(content[pos..], fisher.Width()))
    decreases |content| - pos
  {
    var bs := fisher.Width();
    if pos < |content| {
      var n := Min(bs, |content| - pos);
      ChunksAt(content, pos, bs);
      TransformedCons(fisher, crypt, content[pos..pos + n] + Zeros(bs - n), Chunks(content[pos + n..], bs));
      ReadFromIsTransformed(fisher, crypt, content, pos + n);
    }
  }

  lemma TransformedCons(fisher: Fishers, crypt: bool, block: seq<u8>, blocks: seq<seq<u8>>)
    requires fisher.Valid() && |block| == fisher.Width()
    requires forall i :: 0 <= i < |blocks| ==> |blocks[i]| == fisher.Width()
    ensures Transformed(fisher, crypt, [block] + blocks) == CryptThen(fisher, crypt, block, Transformed(fisher, crypt, blocks))
  {
    var all := [block] + blocks;
    assert all[0] == block && all[1..] == blocks;
  }

  /** The loop's bookkeeping: keeping one more block moves it from the outcome still to come to
      the blocks already kept. */
  lemma KeepBlock(outcome: Result<seq<seq<u8>>>, done: seq<seq<u8>>, b: seq<u8>,
                  here: Result<seq<seq<u8>>>, rest: Result<seq<seq<u8>>>)
    requires outcome == Prefixed(done, here) && here == Prefixed([b], rest)
    ensures outcome == Prefixed(done + [b], rest)
  {
    PrefixedOne(done, b, rest);
  }

  lemma PrefixedOne(done: seq<seq<u8>>, b: seq<u8>, r: Result<seq<seq<u8>>>)
    ensures Prefixed(done, Prefixed([b], r)) == Prefixed(done + [b], r)
  {
    if r.Ok? {
      assert done + ([b] + r.value) == (done + [b]) + r.value;
    }
  }

  /** `Fisher::modify_file` on a file holding `content`: the read loop, then, once every block
      was accepted, the file is reopened for writing, truncated, and the blocks are written back. */
  method ModifyFile(fisher: Fishers, crypt: bool, blockSize: nat, content: seq<u8>) returns (r: Result<seq<u8>>)
    requires fisher.Valid() && blockSize == fisher.Width()
    ensures r == ModifiedFile(fisher, crypt, blockSize, content)
  {
    ReadFromIsTransformed(fisher, crypt, content, 0);
    assert content[0..] == content;
    var modifiedBlocks :- ReadModifiedBlocks(fisher, crypt, blockSize, content);
    var written := WriteBlocks(modifiedBlocks);
    r := Ok(written);
  }

  /** The read loop of `modify_file`: one fresh zero buffer per read, each filled block encrypted
      or decrypted in place and pushed; the first block the cipher does not accept returns its
      error before anything is written. */
  method ReadModifiedBlocks(fisher: Fishers, crypt: bool, blockSize: nat, content: seq<u8>)
    returns (r: Result<seq<seq<u8>>>)
    requires fisher.Valid() && blockSize == fisher.Width()
    ensures r == ReadFrom(fisher, crypt, content, 0)
  {
    var pos := 0;  // the read cursor of the opened file
    var modifiedBlocks: seq<seq<u8>> := [];
    ghost var outcome := ReadFrom(fisher, crypt, content, 0);
    PrefixedNothing(outcome);
    while true
      invariant 0 <= pos <= |content|
      invariant outcome == Prefixed(modifiedBlocks, ReadFrom(fisher, crypt, content, pos))
      decreases |content| - pos
    {
      var step := ReadAndCrypt(fisher, crypt, blockSize, content, pos);
      match step {
        case EndOfFile =>
          break;
        case Refused(e) =>
          return Err(e);
        case Kept(block, bytesRead) =>
          KeepBlock(outcome, modifiedBlocks, block, ReadFrom(fisher, crypt, content, pos),
                    ReadFrom(fisher, crypt, content, pos + bytesRead));
          modifiedBlocks := modifiedBlocks + [block];
          pos := pos + bytesRead;
      }
    }
    assert modifiedBlocks + [] == modifiedBlocks;
    r := Ok(modifiedBlocks);
  }

  /** What one pass of the read loop did: it met the end of the file, a cipher refused the
      block, or the block read (`bytesRead` bytes of the file) was transformed and kept. */
  datatype BlockStep = EndOfFile | Refused(error: Error) | Kept(block: seq<u8>, bytesRead: nat)

  /** One pass of the read loop of `modify_file`: read up to `blockSize` bytes at the cursor into a
      zeroed buffer, stop on a zero-byte read, otherwise hand the buffer to the cipher and return
      early on an error or an `Ok(false)`. The outcome from the cursor on is decided by this pass
      and, when the block is kept, by the rest of the file after the bytes read. */
  method ReadAndCrypt(fisher: Fishers, crypt: bool, blockSize: nat, content: seq<u8>, pos: nat)
    returns (step: BlockStep)
    requires fisher.Valid() && blockSize == fisher.Width() && pos <= |content|
    ensures step.EndOfFile? <==> pos == |content|
    ensures step.Refused? ==> ReadFrom(fisher, crypt, content, pos) == Err(step.error)
    ensures step.Kept? ==>
              && 0 < step.bytesRead && pos + step.bytesRead <= |content|
              && ReadFrom(fisher, crypt, content, pos)
                 == Prefixed([step.block], ReadFrom(fisher, crypt, content, pos + step.bytesRead))
  {
    var buffer, bytesRead := ReadBlock(content, pos, blockSize);
    if bytesRead == 0 {
      return EndOfFile;
    }
    var block := new ByteVec(buffer);
    var status := CryptBlock(fisher, crypt, block);
    match status {
      case Err(e) =>
        return Refused(e);
      case Ok(accepted) =>
        if !accepted {
          return Refused(BlockFailed);
        }
    }
    step := Kept(block.bytes, bytesRead);
  }

  /** `match self.crypt`: `encrypt_block` when encrypting, `decrypt_block` when decrypting. */
  method CryptBlock(fisher: Fishers, crypt: bool, block: ByteVec) returns (status: Result<bool>)
    requires fisher.Valid() && |block.bytes| == fisher.Width()
    modifies block
    ensures Reply(status, block.bytes) == fisher.Crypt(crypt, old(block.bytes))
  {
    if crypt {
      status := fisher.EncryptBlock(block);
    } else {
      status := fisher.DecryptBlock(block);
    }
  }

  /** A fresh buffer `vec![0; blockSize]` filled by one read at the cursor `pos`: the next bytes of
      the file, as many as fit, followed by the zeros the read did not overwrite. */
  method ReadBlock(content: seq<u8>, pos: nat, blockSize: nat) returns (buffer: seq<u8>, bytesRead: nat)
    requires pos <= |content|
    ensures bytesRead == Min(blockSize, |content| - pos)
    ensures buffer == content[pos..pos + bytesRead] + Zeros(blockSize - bytesRead)
  {
    var vec := new u8[blockSize](_ => 0);
    assert vec[..] == Zeros(blockSize);
    bytesRead := Read(content, pos, vec);
    buffer := vec[..];
    assert Zeros(blockSize)[bytesRead..] == Zeros(blockSize - bytesRead);
  }

  /** `file.read(&mut buffer)` with the file's cursor at `pos`: the next bytes of the file, as
      many as fit, are copied to the front of `buffer`, and their number is returned. */
  method Read(content: seq<u8>, pos: nat, buffer: array<u8>) returns (bytesRead: nat)
    requires pos <= |content|
    modifies buffer
    ensures bytesRead == Min(buffer.Length, |content| - pos)
    ensures buffer[..] == content[pos..pos + bytesRead] + old(buffer[..])[bytesRead..]
  {
    bytesRead := Min(buffer.Length, |content| - pos);
    forall i | 0 <= i < bytesRead {
      buffer[i] := content[pos + i];
    }
  }

  /** The write loop of `modify_file`: what the truncated file receives. */
  method WriteBlocks(modifiedBlocks: seq<seq<u8>>) returns (written: seq<u8>)
    ensures written == Written(modifiedBlocks)
  {
    written := [];
    if modifiedBlocks == [] {
      return;
    }
    ghost var last := modifiedBlocks[|modifiedBlocks| - 1];
    assert modifiedBlocks[0..] == modifiedBlocks;
    var i := 0;
    while i < |modifiedBlocks|
      invariant 0 <= i <= |modifiedBlocks|
      invariant written + WriteUntil(modifiedBlocks[i..], last) == Written(modifiedBlocks)
    {
      var block := modifiedBlocks[i];
      ghost var rest := modifiedBlocks[i..];
      assert rest[0] == block;
      if block == modifiedBlocks[|modifiedBlocks| - 1] {
        // Last block: write it without its trailing zero bytes, and stop.
        var padding := TrailingZeros(block);
        assert WriteUntil(rest, last) == StripTrailingZeros(block);
        written := written + block[..|block| - padding];
        return;
      }
      assert rest[1..] == modifiedBlocks[i + 1..];
      assert WriteUntil(rest, last) == block + WriteUntil(modifiedBlocks[i + 1..], last);
      written := written + block;
      i := i + 1;
    }
  }

  /** The padding count of `modify_file`: the number of zero bytes at the end of `block`. */
  method TrailingZeros(block: seq<u8>) returns (padding: nat)
    ensures padding <= |block|
    ensures block[..|block| - padding] == StripTrailingZeros(block)
  {
    padding := 0;
    while padding < |block|
      invariant 0 <= padding <= |block|
      invariant StripTrailingZeros(block[..|block| - padding]) == StripTrailingZeros(block)
    {
      if block[|block| - 1 - padding] == 0 {
        assert block[..|block| - padding][..|block| - padding - 1] == block[..|block| - (padding + 1)];
        padding := padding + 1;
      } else {
        break;
      }
    }
  }

  /** An empty file yields no block and stays empty. */
  lemma EmptyFileStaysEmpty(fisher: Fishers, crypt: bool, blockSize: nat)
    requires fisher.Valid() && blockSize == fisher.Width()
    ensures ModifiedFile(fisher, crypt, blockSize, []) == Ok([])
  {
  }

  /** `modify_file` fails exactly when the cipher does not accept some block of the file, and then
      with the first such block's error; it never reaches the rewrite in that case. */
  lemma ModifyFailsAtFirstRejection(fisher: Fishers, crypt: bool, blockSize: nat, content: seq<u8>)
    requires fisher.Valid() && blockSize == fisher.Width()
    ensures var blocks := Chunks(content, blockSize);
            ModifiedFile(fisher, crypt, blockSize, content).Err? <==> !AllAccepted(fisher, crypt, blocks)
    ensures var blocks := Chunks(content, blockSize);
            var r := ModifiedFile(fisher, crypt, blockSize, content);
            r.Err? ==> exists k :: 0 <= k < |blocks| && AllAccepted(fisher, crypt, blocks[..k])
                                  && RejectedWith(fisher.Crypt(crypt, blocks[k]), r.error)
  {
    TransformedFailsAtFirstRejection(fisher, crypt, Chunks(content, blockSize));
  }

  /** With a block cipher, `modify_file` always succeeds, and the new contents are no longer than
      the padded input, which is less than one block longer than the input. */
  lemma CipherModifyLength(fisher: Fishers, crypt: bool, content: seq<u8>)
    requires fisher.IsBlockCipher()
    ensures var r := ModifiedFile(fisher, crypt, fisher.Width(), content);
            r.Ok? && |r.value| <= |Concat(Chunks(content, fisher.Width()))| && |r.value| < |content| + fisher.Width()
  {
    var blocks := Chunks(content, fisher.Width());
    CipherBlocks(fisher, crypt, content);
    var out := Transformed(fisher, crypt, blocks).value;
    forall i | 0 <= i < |blocks| ensures |out[i]| == |blocks[i]| {
      CryptAccepts(fisher, crypt, blocks[i]);
    }
    WrittenIsNoLongerThanBlocks(out);
    ConcatSameLengths(out, blocks);
    ChunksArePadded(content, fisher.Width());
  }

  lemma {:induction false} ConcatSameLengths(a: seq<seq<u8>>, b: seq<seq<u8>>)
    requires |a| == |b| && forall i :: 0 <= i < |a| ==> |a[i]| == |b[i]|
    ensures |Concat(a)| == |Concat(b)|
  {
    if a != [] {
      ConcatSameLengths(a[1..], b[1..]);
    }
  }

  /** No block before the final one has the final block's contents. */
  predicate LastIsUnique(blocks: seq<seq<u8>>)
  {
    forall j :: 0 <= j < |blocks| - 1 ==> blocks[j] != blocks[|blocks| - 1]
  }

  /** The blocks a block cipher produces for `content`, in file order. */
  lemma CipherBlocks(fisher: Fishers, crypt: bool, content: seq<u8>)
    requires fisher.IsBlockCipher()
    ensures var blocks := Chunks(content, fisher.Width());
            var r := Transformed(fisher, crypt, blocks);
            r.Ok? && |r.value| == |blocks|
            && forall i :: 0 <= i < |blocks| ==>
                 r.value[i] == fisher.Crypt(crypt, blocks[i]).block && |r.value[i]| == fisher.Width()
  {
    var blocks := Chunks(content, fisher.Width());
    BlockCipherAcceptsAll(fisher, crypt, blocks);
    TransformedBlocks(fisher, crypt, blocks);
    forall i | 0 <= i < |blocks| ensures |fisher.Crypt(crypt, blocks[i]).block| == fisher.Width() {
      CryptAccepts(fisher, crypt, blocks[i]);
    }
  }

  /** A block cipher accepts every block, so the transform succeeds. */
  lemma BlockCipherAcceptsAll(fisher: Fishers, crypt: bool, blocks: seq<seq<u8>>)
    requires fisher.IsBlockCipher()
    requires forall i :: 0 <= i < |blocks| ==> |blocks[i]| == fisher.Width()
    ensures Transformed(fisher, crypt, blocks).Ok?
  {
    forall i | 0 <= i < |blocks| ensures Accepted(fisher.Crypt(crypt, blocks[i])) {
      CryptAccepts(fisher, crypt, blocks[i]);
    }
    TransformedFailsAtFirstRejection(fisher, crypt, blocks);
  }

  /** Decrypting an encrypted file gives back the plaintext blocks written with the trailing-zero
      rule, provided the final plaintext block has no earlier copy and its ciphertext is not all
      zero bytes: the zeros stripped from the ciphertext come back as the padding of its final read. */
  lemma DecryptAfterEncrypt(fisher: Fishers, content: seq<u8>)
    requires fisher.IsBlockCipher()
    requires var p := Chunks(content, fisher.Width());
             p != [] ==> LastIsUnique(p) && StripTrailingZeros(fisher.Crypt(true, p[|p| - 1]).block) != []
    ensures var e := ModifiedFile(fisher, true, fisher.Width(), content);
            e.Ok? && ModifiedFile(fisher, false, fisher.Width(), e.value) == Ok(Written(Chunks(content, fisher.Width())))
  {
    var w := fisher.Width();
    var p := Chunks(content, w);
    CipherBlocks(fisher, true, content);
    var x := Transformed(fisher, true, p).value;
    var e := ModifiedFile(fisher, true, w, content);
    assert e == Ok(Written(x));
    if p != [] {
      EncryptionKeepsLastUnique(fisher, p, x);
      WrittenReadBack(x, w);
    }
    assert Chunks(e.value, w) == x;
    DecryptingCiphertextBlocks(fisher, p, x);
  }

  /** Blocks of one width whose final block has no earlier copy, written with the trailing-zero
      rule and read back: all of them when the final block is not all zero bytes, and all but the
      final one when it is. */
  lemma WrittenReadBack(x: seq<seq<u8>>, w: nat)
    requires w > 0 && x != [] && LastIsUnique(x)
    requires forall i :: 0 <= i < |x| ==> |x[i]| == w
    ensures StripTrailingZeros(x[|x| - 1]) != [] ==> Chunks(Written(x), w) == x
    ensures StripTrailingZeros(x[|x| - 1]) == [] ==> Chunks(Written(x), w) == x[..|x| - 1]
  {
    WrittenWithUniqueLast(x);
    if StripTrailingZeros(x[|x| - 1]) != [] {
      ReadBackPadded(x, w);
    } else {
      var front := Concat(x[..|x| - 1]);
      assert Written(x) == front + [] == front;
      ChunksOfWholeBlocks(x[..|x| - 1], w);
    }
  }

  lemma ReadBackPadded(x: seq<seq<u8>>, w: nat)
    requires w > 0 && x != [] && StripTrailingZeros(x[|x| - 1]) != []
    requires forall i :: 0 <= i < |x| ==> |x[i]| == w
    ensures Chunks(Concat(x[..|x| - 1]) + StripTrailingZeros(x[|x| - 1]), w) == x
  {
    var n := |x|;
    var s := StripTrailingZeros(x[n - 1]);
    StrippedIsPadded(x[n - 1]);
    ShortFinalChunk(x[..n - 1], s, w);
    assert x[..n - 1] + [x[n - 1]] == x;
  }

  /** When the final ciphertext block is all zero bytes, the trailing-zero rule writes none of it,
      and decryption loses the file's final block. */
  lemma ZeroCipherBlockIsLost(fisher: Fishers, content: seq<u8>)
    requires fisher.IsBlockCipher()
    requires var p := Chunks(content, fisher.Width());
             p != [] && LastIsUnique(p) && StripTrailingZeros(fisher.Crypt(true, p[|p| - 1]).block) == []
    ensures var e := ModifiedFile(fisher, true, fisher.Width(), content);
            var p := Chunks(content, fisher.Width());
            e.Ok? && ModifiedFile(fisher, false, fisher.Width(), e.value) == Ok(Written(p[..|p| - 1]))
  {
    var w := fisher.Width();
    var p := Chunks(content, w);
    CipherBlocks(fisher, true, content);
    var x := Transformed(fisher, true, p).value;
    assert ModifiedFile(fisher, true, w, content) == Ok(Written(x));
    EncryptionKeepsLastUnique(fisher, p, x);
    DecryptWithoutFinal(fisher, p, x);
  }

  lemma DecryptWithoutFinal(fisher: Fishers, p: seq<seq<u8>>, x: seq<seq<u8>>)
    requires fisher.IsBlockCipher() && p != [] && |x| == |p| && LastIsUnique(x)
    requires forall i :: 0 <= i < |p| ==>
               |p[i]| == fisher.Width() && |x[i]| == fisher.Width() && x[i] == fisher.Crypt(true, p[i]).block
    requires StripTrailingZeros(x[|x| - 1]) == []
    ensures Transformed(fisher, false, Chunks(Written(x), fisher.Width())) == Ok(p[..|p| - 1])
  {
    WrittenReadBack(x, fisher.Width());
    DecryptingPrefix(fisher, p, x, |p| - 1);
  }

  /** Decrypting the first `k` ciphertext blocks gives back the first `k` plaintext blocks. */
  lemma DecryptingPrefix(fisher: Fishers, p: seq<seq<u8>>, x: seq<seq<u8>>, k: nat)
    requires fisher.IsBlockCipher()
    requires |x| == |p| && k <= |p|
    requires forall i :: 0 <= i < |p| ==>
               |p[i]| == fisher.Width() && |x[i]| == fisher.Width() && x[i] == fisher.Crypt(true, p[i]).block
    ensures Transformed(fisher, false, x[..k]) == Ok(p[..k])
  {
    var p0, x0 := p[..k], x[..k];
    forall i | 0 <= i < k ensures p0[i] == p[i] && x0[i] == x[i] {
    }
    DecryptingCiphertextBlocks(fisher, p0, x0);
  }

  /** A block is what is left of it after stripping, followed by the zeros stripped. */
  lemma StrippedIsPadded(b: seq<u8>)
    ensures b == StripTrailingZeros(b) + Zeros(|b| - |StripTrailingZeros(b)|)
  {
    var r := StripTrailingZeros(b);
    var z := Zeros(|b| - |r|);
    assert forall i :: 0 <= i < |b| ==> b[i] == (r + z)[i];
  }

  /** Reading whole blocks followed by a short, non-empty tail yields those blocks, then the tail
      padded with zeros to a whole block. */
  lemma {:induction false} ShortFinalChunk(front: seq<seq<u8>>, s: seq<u8>, w: nat)
    requires w > 0 && 0 < |s| <= w
    requires forall i :: 0 <= i < |front| ==> |front[i]| == w
    ensures Chunks(Concat(front) + s, w) == front + [s + Zeros(w - |s|)]
  {
    if front == [] {
      assert Concat(front) + s == s;
      assert s[..|s|] == s && s[|s|..] == [];
    } else {
      var c := Concat(front) + s;
      var rest := Concat(front[1..]) + s;
      assert c == front[0] + rest;
      assert c[..w] == front[0] && c[w..] == rest;
      ShortFinalChunk(front[1..], s, w);
      assert Min(w, |c|) == w;
      assert c[..w] + Zeros(0) == front[0];
      assert front == [front[0]] + front[1..];
    }
  }

  /** Distinct plaintext blocks have distinct ciphertext blocks. */
  lemma EncryptionKeepsLastUnique(fisher: Fishers, p: seq<seq<u8>>, x: seq<seq<u8>>)
    requires fisher.IsBlockCipher() && p != [] && LastIsUnique(p)
    requires |x| == |p| && forall i :: 0 <= i < |p| ==> |p[i]| == fisher.Width() && x[i] == fisher.Crypt(true, p[i]).block
    ensures LastIsUnique(x)
  {
    var n := |p|;
    forall j | 0 <= j < n - 1 ensures x[j] != x[n - 1] {
      CryptInjective(fisher, true, p[j], p[n - 1]);
    }
  }

  /** A block that does not end in a zero byte loses nothing to the trailing-zero rule. */
  lemma EndsInNonZero(b: seq<u8>)
    requires b != [] && b[|b| - 1] != 0
    ensures StripTrailingZeros(b) == b
  {
  }

  /** Decrypting the ciphertext blocks block by block gives back the plaintext blocks. */
  lemma DecryptingCiphertextBlocks(fisher: Fishers, p: seq<seq<u8>>, x: seq<seq<u8>>)
    requires fisher.IsBlockCipher()
    requires |x| == |p|
    requires forall i :: 0 <= i < |p| ==>
               |p[i]| == fisher.Width() && |x[i]| == fisher.Width() && x[i] == fisher.Crypt(true, p[i]).block
    ensures Transformed(fisher, false, x) == Ok(p)
  {
    BlockCipherAcceptsAll(fisher, false, x);
    TransformedBlocks(fisher, false, x);
    var y := Transformed(fisher, false, x).value;
    forall i | 0 <= i < |p| ensures y[i] == p[i] {
      CryptUndone(fisher, true, p[i]);
    }
    assert y == p;
  }

  /** When the final block has no earlier copy, the rewrite is every block but the final one,
      verbatim, followed by the final one stripped. */
  lemma WrittenWithUniqueLast(blocks: seq<seq<u8>>)
    requires blocks != [] && LastIsUnique(blocks)
    ensures var n := |blocks|;
            && Written(blocks) == Concat(blocks[..n - 1]) + StripTrailingZeros(blocks[n - 1])
            && Concat(blocks) == Concat(blocks[..n - 1]) + blocks[n - 1]
  {
    var n := |blocks|;
    WriteUntilFirstCopy(blocks, blocks[n - 1], n - 1);
    ConcatLast(blocks);
  }

  lemma ConcatLast(blocks: seq<seq<u8>>)
    requires blocks != []
    ensures Concat(blocks) == Concat(blocks[..|blocks| - 1]) + blocks[|blocks| - 1]
  {
    var n := |blocks|;
    assert blocks == blocks[..n - 1] + [blocks[n - 1]];
    ConcatAppend(blocks[..n - 1], [blocks[n - 1]]);
    assert Concat([blocks[n - 1]]) == blocks[n - 1] + Concat([]);
  }

  /** Writing the plaintext blocks back with the trailing-zero rule restores the file when it is
      empty or ends in a non-zero byte, and loses bytes when it ends in a zero byte (the final
      block having no earlier copy in both cases). */
  lemma WrittenPlaintext(content: seq<u8>, blockSize: nat)
    requires blockSize > 0 && LastIsUnique(Chunks(content, blockSize))
    ensures content == [] || content[|content| - 1] != 0 ==> Written(Chunks(content, blockSize)) == content
    ensures content != [] && content[|content| - 1] == 0 ==> |Written(Chunks(content, blockSize))| < |content|
  {
    var p := Chunks(content, blockSize);
    if p != [] {
      var n := |p|;
      WrittenWithUniqueLast(p);
      var tail, pad := FinalBlockIsTail(content, blockSize);
      StripPadding(tail, pad);
      if content[|content| - 1] != 0 {
        EndsInNonZero(tail);
      } else {
        assert |StripTrailingZeros(tail)| < |tail|;
      }
    }
  }

  /** The final block read from a non-empty file is the file's last bytes, after every earlier
      block, zero-padded. */
  lemma FinalBlockIsTail(content: seq<u8>, blockSize: nat) returns (tail: seq<u8>, pad: nat)
    requires blockSize > 0 && content != []
    ensures var p := Chunks(content, blockSize);
            && content == Concat(p[..|p| - 1]) + tail
            && p[|p| - 1] == tail + Zeros(pad)
            && tail != [] && tail[|tail| - 1] == content[|content| - 1]
  {
    var p := Chunks(content, blockSize);
    var n := |p|;
    ChunksArePadded(content, blockSize);
    ConcatLast(p);
    var front := Concat(p[..n - 1]);
    pad := |Concat(p)| - |content|;
    CutInside(content, Zeros(pad), front, p[n - 1]);
    tail := content[|front|..];
  }

  /** Cutting `x + z` inside `x`: the front is a prefix of `x`, and the rest is the remainder of
      `x` followed by `z`. */
  lemma CutInside(x: seq<u8>, z: seq<u8>, front: seq<u8>, last: seq<u8>)
    requires front + last == x + z && |front| < |x|
    ensures x == front + x[|front|..] && last == x[|front|..] + z
  {
    var m := |front|;
    assert front == (x + z)[..m] == x[..m];
    assert last == (x + z)[m..] == x[m..] + z;
  }

  /** With a block cipher, decrypting an encrypted file restores it when the file ends in a
      non-zero byte (or is empty), its final block has no earlier copy and the final ciphertext
      block is not all zero bytes. */
  lemma RoundTrip(fisher: Fishers, content: seq<u8>)
    requires fisher.IsBlockCipher()
    requires content == [] || content[|content| - 1] != 0
    requires var p := Chunks(content, fisher.Width());
             p != [] ==> LastIsUnique(p) && StripTrailingZeros(fisher.Crypt(true, p[|p| - 1]).block) != []
    ensures var e := ModifiedFile(fisher, true, fisher.Width(), content);
            e.Ok? && ModifiedFile(fisher, false, fisher.Width(), e.value) == Ok(content)
  {
    DecryptAfterEncrypt(fisher, content);
    WrittenPlaintext(content, fisher.Width());
  }

  /** The trailing-zero rule loses data: under the same conditions, a file ending in a zero byte
      comes back shorter after encryption and decryption. */
  lemma RoundTripDropsTrailingZeros(fisher: Fishers, content: seq<u8>)
    requires fisher.IsBlockCipher()
    requires content != [] && content[|content| - 1] == 0
    requires var p := Chunks(content, fisher.Width());
             LastIsUnique(p) && StripTrailingZeros(fisher.Crypt(true, p[|p| - 1]).block) != []
    ensures var e := ModifiedFile(fisher, true, fisher.Width(), content);
            e.Ok? && var d := ModifiedFile(fisher, false, fisher.Width(), e.value);
            d.Ok? && |d.value| < |content|
  {
    DecryptAfterEncrypt(fisher, content);
    WrittenPlaintext(content, fisher.Width());
  }

  /** The "last block" test compares contents: a file made of one block twice is encrypted into
      at most one block, the second copy being dropped. */
  lemma RepeatedBlockIsDropped(fisher: Fishers, block: seq<u8>)
    requires fisher.IsBlockCipher() && |block| == fisher.Width()
    ensures var e := ModifiedFile(fisher, true, fisher.Width(), block + block);
            e.Ok? && e.value == StripTrailingZeros(fisher.Crypt(true, block).block)
  {
    var w := fisher.Width();
    assert Concat([block, block]) == block + block by {
      assert Concat([block, block]) == block + Concat([block]);
      assert Concat([block]) == block + Concat([]);
    }
    ChunksOfWholeBlocks([block, block], w);
    CipherBlocks(fisher, true, block + block);
  }
}
