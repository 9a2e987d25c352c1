/** Full-block cipher feedback, section 6.3 of NIST SP 800-38A with s = b = 128,
    over an arbitrary block function.  The last block may be partial. */
module Cfb {
  import opened Bytes

  type Block = seq<byte> -> seq<byte>

  ghost predicate IsBlockFunction(E: Block) {
    forall b :: |b| == 16 ==> |E(b)| == 16
  }

  function XorSeq(a: seq<byte>, pad: seq<byte>): (r: seq<byte>)
    requires |a| <= |pad|
    ensures |r| == |a| && forall k :: 0 <= k < |a| ==> r[k] == Xor(a[k], pad[k])
  {
    seq(|a|, k requires 0 <= k < |a| => Xor(a[k], pad[k]))
  }

  lemma XorSeqUndo(a: seq<byte>, pad: seq<byte>)
    requires |a| <= |pad|
    ensures XorSeq(XorSeq(a, pad), pad) == a
  {
    forall k | 0 <= k < |a| ensures XorSeq(XorSeq(a, pad), pad)[k] == a[k] {
      XorUndo(a[k], pad[k]);
    }
  }

  /** Each ciphertext block feeds the next; `decrypting` says which side the ciphertext is on. */
  function Feedback(E: Block, reg: seq<byte>, src: seq<byte>, decrypting: bool): (r: seq<byte>)
    requires IsBlockFunction(E) && |reg| == 16
    ensures |r| == |src|
    decreases |src|
  {
    if |src| <= 16 then XorSeq(src, E(reg))
    else
      var head := XorSeq(src[..16], E(reg));
      head + Feedback(E, if decrypting then src[..16] else head, src[16..], decrypting)
  }

  function Encrypt(E: Block, iv: seq<byte>, plain: seq<byte>): (r: seq<byte>)
    requires IsBlockFunction(E) && |iv| == 16
    ensures |r| == |plain|
  {
    Feedback(E, iv, plain, false)
  }

  function Decrypt(E: Block, iv: seq<byte>, cipher: seq<byte>): (r: seq<byte>)
    requires IsBlockFunction(E) && |iv| == 16
    ensures |r| == |cipher|
  {
    Feedback(E, iv, cipher, true)
  }

  /** The two directions undo each other, whichever is applied first. */
  lemma {:induction false} Undo(E: Block, reg: seq<byte>, src: seq<byte>, decrypting: bool)
    requires IsBlockFunction(E) && |reg| == 16
    ensures Feedback(E, reg, Feedback(E, reg, src, decrypting), !decrypting) == src
    decreases |src|
  {
    if |src| <= 16 {
      XorSeqUndo(src, E(reg));
    } else {
      var head := XorSeq(src[..16], E(reg));
      var next := if decrypting then src[..16] else head;
      var rest := Feedback(E, next, src[16..], decrypting);
      var out := head + rest;
      assert out[..16] == head && out[16..] == rest;
      XorSeqUndo(src[..16], E(reg));
      Undo(E, next, src[16..], decrypting);
      assert src == src[..16] + src[16..];
    }
  }

  lemma DecryptUndoesEncrypt(E: Block, iv: seq<byte>, plain: seq<byte>)
    requires IsBlockFunction(E) && |iv| == 16
    ensures Decrypt(E, iv, Encrypt(E, iv, plain)) == plain
  {
    Undo(E, iv, plain, false);
  }

  lemma EncryptUndoesDecrypt(E: Block, iv: seq<byte>, cipher: seq<byte>)
    requires IsBlockFunction(E) && |iv| == 16
    ensures Encrypt(E, iv, Decrypt(E, iv, cipher)) == cipher
  {
    Undo(E, iv, cipher, true);
  }

  /** The standard's input block I_j: the IV, then the previous ciphertext block. */
  function InputBlock(iv: seq<byte>, cipher: seq<byte>, j: nat): (b: seq<byte>)
    requires |iv| == 16 && 16 * j <= |cipher|
    ensures |b| == 16
  {
    if j == 0 then iv else cipher[16 * (j - 1)..16 * j]
  }

  /** Encryption is the standard's C_j = P_j xor E(I_j), byte by byte. */
  lemma {:induction false} EncryptIsStandard(E: Block, iv: seq<byte>, plain: seq<byte>, k: nat)
    requires IsBlockFunction(E) && |iv| == 16 && k < |plain|
    ensures Encrypt(E, iv, plain)[k] == Xor(plain[k], E(InputBlock(iv, Encrypt(E, iv, plain), k / 16))[k % 16])
    decreases k
  {
    if k < 16 {
    } else {
      var out := Encrypt(E, iv, plain);
      var head, rest := out[..16], out[16..];
      assert head == XorSeq(plain[..16], E(iv)) && rest == Encrypt(E, head, plain[16..]);
      EncryptIsStandard(E, head, plain[16..], k - 16);
      var j := k / 16;
      assert (k - 16) / 16 == j - 1 && (k - 16) % 16 == k % 16;
      assert InputBlock(head, rest, j - 1) == InputBlock(iv, out, j);
    }
  }

  /** The register after a full block. */
  function NextRegister(src: seq<byte>, out: seq<byte>, decrypting: bool): (r: seq<byte>)
    requires |src| == |out| == 16
    ensures |r| == 16
  {
    if decrypting then src else out
  }

  /** A full block more of key stream after `done`. */
  lemma FeedbackBlock(E: Block, reg: seq<byte>, src: seq<byte>, decrypting: bool, done: seq<byte>)
    requires IsBlockFunction(E) && |reg| == 16 && |src| >= 16
    ensures var head := XorSeq(src[..16], E(reg));
            done + Feedback(E, reg, src, decrypting)
            == (done + head) + Feedback(E, NextRegister(src[..16], head, decrypting), src[16..], decrypting)
  {
    if |src| == 16 {
      assert src[..16] == src && src[16..] == [];
    }
    var head := XorSeq(src[..16], E(reg));
    var tail := Feedback(E, NextRegister(src[..16], head, decrypting), src[16..], decrypting);
    assert done + (head + tail) == (done + head) + tail;
  }

  /** crypto/cipher's XORKeyStream into `dst`, a fresh stream starting at `iv`. */
  method XorKeyStream(E: Block, iv: seq<byte>, dst: array<byte>, src: seq<byte>, decrypting: bool)
    requires IsBlockFunction(E) && |iv| == 16 && dst.Length == |src|
    modifies dst
    ensures dst[..] == Feedback(E, iv, src, decrypting)
  {
    var next, k := iv, 0;
    ghost var done, todo := [], src;
    while k + 16 <= |src|
      invariant 0 <= k <= |src| && |next| == 16
      invariant dst[..k] == done && src[k..] == todo
      invariant done + Feedback(E, next, todo, decrypting) == Feedback(E, iv, src, decrypting)
    {
      var block, out := src[k..k + 16], E(next);
      assert todo[..16] == block && src[k + 16..] == todo[16..];
      FeedbackBlock(E, next, todo, decrypting, done);
      XorBlock(dst, k, block, out);
      assert dst[..k + 16] == done + dst[k..k + 16];
      done, todo := done + dst[k..k + 16], todo[16..];
      next := NextRegister(block, dst[k..k + 16], decrypting);
      k := k + 16;
    }
    var out := E(next);
    XorBlock(dst, k, src[k..], out);
    assert dst[..] == done + XorSeq(todo, out);
  }

  /** One block of key stream, or the part of it that is needed. */
  method XorBlock(dst: array<byte>, at: nat, src: seq<byte>, out: seq<byte>)
    requires at + |src| <= dst.Length && |src| <= |out|
    modifies dst
    ensures dst[at..at + |src|] == XorSeq(src, out)
    ensures dst[..at] == old(dst[..at])
  {
    forall i | 0 <= i < |src| {
      dst[at + i] := Xor(src[i], out[i]);
    }
  }
}
