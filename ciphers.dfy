/** The cipher dispatch of `src/enum.rs`: the `Threefisher` enum, whose variants fix the block
    width, and the `Fishers` enum that the file engine calls. The block primitives themselves
    belong to external crates; each keyed primitive is a pair of functions on byte blocks that
    is required to be a permutation of the blocks of its width, with its inverse. */
module Ciphers {
  import opened Common

  /** A keyed block primitive: the forward (encrypt) and backward (decrypt) transforms of one key. */
  datatype BlockPermutation = BlockPermutation(forward: seq<u8> -> seq<u8>, backward: seq<u8> -> seq<u8>)

  /** `p` maps blocks of `width` bytes to blocks of `width` bytes, and `backward` undoes `forward`
      (and the other way round): what a block cipher with a fixed key is. */
  ghost predicate IsPermutationOn(p: BlockPermutation, width: nat)
  {
    && (forall b: seq<u8> :: |b| == width ==> |p.forward(b)| == width)
    && (forall b: seq<u8> :: |b| == width ==> |p.backward(b)| == width)
    && (forall b: seq<u8> {:trigger p.backward(p.forward(b))} :: |b| == width ==> p.backward(p.forward(b)) == b)
    && (forall b: seq<u8> {:trigger p.forward(p.backward(b))} :: |b| == width ==> p.forward(p.backward(b)) == b)
  }

  /** `Threefisher`: one keyed Threefish instance per block width. */
  datatype Threefisher =
    | Threefish256(cipher: BlockPermutation)
    | Threefish512(cipher: BlockPermutation)
    | Threefish1024(cipher: BlockPermutation)
  {
    /** The block width in bytes: the variant's state size in bits divided by 8. */
    function Width(): (w: nat)
      ensures w * 8 == match this
                       case Threefish256(_) => 256
                       case Threefish512(_) => 512
                       case Threefish1024(_) => 1024
    {
      match this
      case Threefish256(_) => 32
      case Threefish512(_) => 64
      case Threefish1024(_) => 128
    }

    /** The key of the variant gives a block cipher on blocks of the variant's width. */
    ghost predicate Valid()
    {
      IsPermutationOn(cipher, Width())
    }

    /** The variant's forward transform of one block. */
    function EncryptedBlock(block: seq<u8>): (r: seq<u8>)
      requires Valid() && |block| == Width()
      ensures |r| == |block|
    {
      cipher.forward(block)
    }

    /** The variant's backward transform of one block. */
    function DecryptedBlock(block: seq<u8>): (r: seq<u8>)
      requires Valid() && |block| == Width()
      ensures |r| == |block|
    {
      cipher.backward(block)
    }

    /** `encrypt_block`: `clone_from_slice` panics unless the block has the variant's width (the
        precondition); the block is replaced by its encryption and the answer is always `Ok(true)`. */
    method EncryptBlock(block: ByteVec) returns (r: Result<bool>)
      requires Valid() && |block.bytes| == Width()
      modifies block
      ensures r == Ok(true)
      ensures block.bytes == EncryptedBlock(old(block.bytes))
    {
      match this {
        case Threefish256(threefish) =>
          var tfBlock := block.bytes;
          tfBlock := threefish.forward(tfBlock);
          block.bytes := tfBlock;
        case Threefish512(threefish) =>
          var tfBlock := block.bytes;
          tfBlock := threefish.forward(tfBlock);
          block.bytes := tfBlock;
        case Threefish1024(threefish) =>
          var tfBlock := block.bytes;
          tfBlock := threefish.forward(tfBlock);
          block.bytes := tfBlock;
      }
      r := Ok(true);
    }

    /** `decrypt_block`: the mirror of `EncryptBlock`, dispatching on the same variant. */
    method DecryptBlock(block: ByteVec) returns (r: Result<bool>)
      requires Valid() && |block.bytes| == Width()
      modifies block
      ensures r == Ok(true)
      ensures block.bytes == DecryptedBlock(old(block.bytes))
    {
      match this {
        case Threefish256(threefish) =>
          var tfBlock := block.bytes;
          tfBlock := threefish.backward(tfBlock);
          block.bytes := tfBlock;
        case Threefish512(threefish) =>
          var tfBlock := block.bytes;
          tfBlock := threefish.backward(tfBlock);
          block.bytes := tfBlock;
        case Threefish1024(threefish) =>
          var tfBlock := block.bytes;
          tfBlock := threefish.backward(tfBlock);
          block.bytes := tfBlock;
      }
      r := Ok(true);
    }
  }

  /** Decrypting with a variant undoes encrypting with the same variant. */
  lemma DecryptUndoesEncrypt(t: Threefisher, block: seq<u8>)
    requires t.Valid() && |block| == t.Width()
    ensures t.DecryptedBlock(t.EncryptedBlock(block)) == block
  {
  }

  /** Encrypting with a variant undoes decrypting with the same variant. */
  lemma EncryptUndoesDecrypt(t: Threefisher, block: seq<u8>)
    requires t.Valid() && |block| == t.Width()
    ensures t.EncryptedBlock(t.DecryptedBlock(block)) == block
  {
  }

  /** Encryption is injective on blocks of the variant's width: equal ciphertext blocks come from
      equal plaintext blocks. */
  lemma EncryptInjective(t: Threefisher, a: seq<u8>, b: seq<u8>)
    requires t.Valid() && |a| == t.Width() && |b| == t.Width()
    ensures t.EncryptedBlock(a) == t.EncryptedBlock(b) <==> a == b
  {
    if t.EncryptedBlock(a) == t.EncryptedBlock(b) {
      DecryptUndoesEncrypt(t, a);
      DecryptUndoesEncrypt(t, b);
    }
  }

  /** What a cipher call leaves behind: its `FResult<bool>` and the contents of the block. */
  datatype Reply = Reply(status: Result<bool>, block: seq<u8>)

  /** A keyed Blowfish or Twofish instance. Its code is not part of this model, so nothing is
      assumed about its replies: it may fail, answer `Ok(false)`, or change the block's length. */
  datatype OpaqueCipher = OpaqueCipher(encrypt: seq<u8> -> Reply, decrypt: seq<u8> -> Reply)

  /** `c` behaves as a block cipher on blocks of `width` bytes: it accepts every block, keeps its
      width, and `decrypt` undoes `encrypt` (and the other way round). */
  ghost predicate IsCipherOn(c: OpaqueCipher, width: nat)
  {
    && (forall b: seq<u8> :: |b| == width ==> c.encrypt(b).status == Ok(true) && |c.encrypt(b).block| == width)
    && (forall b: seq<u8> :: |b| == width ==> c.decrypt(b).status == Ok(true) && |c.decrypt(b).block| == width)
    && (forall b: seq<u8> {:trigger c.decrypt(c.encrypt(b).block)} :: |b| == width ==> c.decrypt(c.encrypt(b).block).block == b)
    && (forall b: seq<u8> {:trigger c.encrypt(c.decrypt(b).block)} :: |b| == width ==> c.encrypt(c.decrypt(b).block).block == b)
  }

  /** `Fishers`: the cipher the file engine holds, one variant per algorithm. */
  datatype Fishers =
    | Blowfish(blowfish: OpaqueCipher)
    | Twofish(twofish: OpaqueCipher)
    | Threefish(threefish: Threefisher)
  {
    /** The block width in bytes: 64-bit Blowfish blocks, 128-bit Twofish blocks, and the
        Threefish variant's width. */
    function Width(): (w: nat)
      ensures w > 0
      ensures Threefish? ==> w == threefish.Width()
    {
      match this
      case Blowfish(_) => 8
      case Twofish(_) => 16
      case Threefish(t) => t.Width()
    }

    ghost predicate Valid()
    {
      Threefish? ==> threefish.Valid()
    }

    /** The held cipher is a block cipher on its width, whichever the algorithm: every block is
        accepted and keeps its width, and decryption undoes encryption. */
    ghost predicate IsBlockCipher()
    {
      && Valid()
      && (Blowfish? ==> IsCipherOn(blowfish, 8))
      && (Twofish? ==> IsCipherOn(twofish, 16))
    }

    /** The reply to `encrypt_block` (`crypt`) or `decrypt_block` (`!crypt`) on `block`. A
        Threefish instance always accepts and keeps the block's length; `CryptAccepts` states the
        same of any block cipher. */
    function Crypt(crypt: bool, block: seq<u8>): (r: Reply)
      requires Valid() && |block| == Width()
      ensures Threefish? ==> r.status == Ok(true) && |r.block| == |block|
      ensures Threefish? && crypt ==> threefish.DecryptedBlock(r.block) == block
      ensures Threefish? && !crypt ==> threefish.EncryptedBlock(r.block) == block
    {
      match this
      case Blowfish(c) => if crypt then c.encrypt(block) else c.decrypt(block)
      case Twofish(c) => if crypt then c.encrypt(block) else c.decrypt(block)
      case Threefish(t) =>
        Reply(Ok(true), if crypt then t.EncryptedBlock(block) else t.DecryptedBlock(block))
    }

    /** `encrypt_block` on the held cipher: the block is overwritten in place. */
    method EncryptBlock(block: ByteVec) returns (r: Result<bool>)
      requires Valid() && |block.bytes| == Width()
      modifies block
      ensures r == Crypt(true, old(block.bytes)).status
      ensures block.bytes == Crypt(true, old(block.bytes)).block
    {
      match this
      case Blowfish(c) =>
        var reply := c.encrypt(block.bytes);
        block.bytes := reply.block;
        r := reply.status;
      case Twofish(c) =>
        var reply := c.encrypt(block.bytes);
        block.bytes := reply.block;
        r := reply.status;
      case Threefish(t) =>
        r := t.EncryptBlock(block);
    }

    /** `decrypt_block` on the held cipher: the block is overwritten in place. */
    method DecryptBlock(block: ByteVec) returns (r: Result<bool>)
      requires Valid() && |block.bytes| == Width()
      modifies block
      ensures r == Crypt(false, old(block.bytes)).status
      ensures block.bytes == Crypt(false, old(block.bytes)).block
    {
      match this
      case Blowfish(c) =>
        var reply := c.decrypt(block.bytes);
        block.bytes := reply.block;
        r := reply.status;
      case Twofish(c) =>
        var reply := c.decrypt(block.bytes);
        block.bytes := reply.block;
        r := reply.status;
      case Threefish(t) =>
        r := t.DecryptBlock(block);
    }
  }

  /** The block widths of the three algorithms: 64-bit Blowfish blocks, 128-bit Twofish blocks,
      and 256, 512 or 1024-bit Threefish blocks. */
  lemma FishersWidths(fisher: Fishers)
    ensures fisher.Blowfish? ==> fisher.Width() == 8
    ensures fisher.Twofish? ==> fisher.Width() == 16
    ensures fisher.Threefish? ==> fisher.Width() in {32, 64, 128}
  {
  }

  /** A block cipher accepts every block of its width in either direction, and keeps its width. */
  lemma CryptAccepts(fisher: Fishers, crypt: bool, block: seq<u8>)
    requires fisher.IsBlockCipher() && |block| == fisher.Width()
    ensures fisher.Crypt(crypt, block).status == Ok(true) && |fisher.Crypt(crypt, block).block| == |block|
  {
  }

  /** With a block cipher, the opposite direction undoes either direction of `Crypt`. */
  lemma CryptUndone(fisher: Fishers, crypt: bool, block: seq<u8>)
    requires fisher.IsBlockCipher() && |block| == fisher.Width()
    ensures fisher.Crypt(!crypt, fisher.Crypt(crypt, block).block).block == block
  {
    CryptAccepts(fisher, crypt, block);
    if fisher.Threefish? {
      if crypt {
        DecryptUndoesEncrypt(fisher.threefish, block);
      } else {
        EncryptUndoesDecrypt(fisher.threefish, block);
      }
    }
  }

  /** With a block cipher, two blocks give the same output exactly when they are equal. */
  lemma CryptInjective(fisher: Fishers, crypt: bool, a: seq<u8>, b: seq<u8>)
    requires fisher.IsBlockCipher() && |a| == fisher.Width() && |b| == fisher.Width()
    ensures fisher.Crypt(crypt, a).block == fisher.Crypt(crypt, b).block <==> a == b
  {
    if fisher.Crypt(crypt, a).block == fisher.Crypt(crypt, b).block {
      CryptUndone(fisher, crypt, a);
      CryptUndone(fisher, crypt, b);
    }
  }
}
