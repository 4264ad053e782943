/** The AES context: key set-up, single-block calls, and the contract of the /dev/aes engine. */
module AesContext {
  import opened Bytes
  import opened Aes
  import opened AesKey
  import opened AesBlock

  datatype Mode = EncryptMode | DecryptMode

  datatype Status =
    | Ok
    | InvalidKeyLength
    | InvalidInputLength

  /** AES under one key, as a function on blocks. */
  function Cipher(key: Key): BlockFn {
    (x: Block) => Encrypt(Expand(key), |key| + 6, x)
  }

  function Decipher(key: Key): BlockFn {
    (y: Block) => Decrypt(Expand(key), |key| + 6, y)
  }

  function Direction(mode: Mode, key: Key): BlockFn {
    if mode == EncryptMode then Cipher(key) else Decipher(key)
  }

  ghost predicate Inverses(e: BlockFn, d: BlockFn) {
    forall x: Block :: d(e(x)) == x && e(d(x)) == x
  }

  /** The two directions of AES undo each other, for every key. */
  lemma CipherInverts(key: Key)
    ensures Inverses(Cipher(key), Decipher(key))
  {
    hide Encrypt, Decrypt, Expand;
    forall x: Block
      ensures Decipher(key)(Cipher(key)(x)) == x && Cipher(key)(Decipher(key)(x)) == x
    {
      DecryptUndoesEncrypt(Expand(key), |key| + 6, x);
      EncryptUndoesDecrypt(Expand(key), |key| + 6, x);
    }
  }

  /** AES byte by byte, with ten, twelve or fourteen rounds over the schedule of the key. */
  lemma CipherByBytes(key: Key, x: Block) returns (states: seq<Block>)
    ensures |states| == (if |key| == 4 then 11 else if |key| == 6 then 13 else 15)
    ensures Cipher(key)(x) == states[|states| - 1]
    ensures forall i | 0 <= i < 16 :: states[0][i] == Add(x[i], KeyByte(Expand(key), 0, i))
    ensures forall r | 0 < r < |states| - 1 :: Round(Expand(key), states[r - 1], states[r], r)
    ensures var nr := |states| - 1; LastRound(Expand(key), states[nr - 1], states[nr], nr)
  {
    hide Encrypt, Expand, Round, LastRound, KeyByte;
    states := EncryptionByBytes(Expand(key), |key| + 6, x);
  }

  /** `mbedtls_aes_context` after its fields were cleared. */
  class Context {
    var nr: nat
    const rk: array<bv32>
    var hwKey: seq<bv32>
    var keybits: nat
    var hasHw: bool
    ghost var key: Key

    /** A key was set, and the software schedule and the engine's key words both come from it. */
    ghost predicate Keyed()
      reads this, rk
    {
      && rk.Length == 68
      && nr == |key| + 6
      && rk[..4 * (nr + 1)] == Expand(key)
      && keybits == 32 * |key|
      && hasHw == (keybits == 128)
      && (hasHw ==> hwKey == key)
    }

    constructor ()
      ensures fresh(rk) && rk.Length == 68 && !hasHw
    {
      nr, keybits, hasHw, hwKey := 0, 0, false, [];
      rk := new bv32[68](_ => 0);
    }

    /** `mbedtls_aes_setkey_enc`, which `mbedtls_aes_setkey_dec` calls unchanged. */
    method SetKey(k: seq<byte>, bits: nat) returns (status: Status)
      requires rk.Length == 68 && |k| >= bits / 8
      modifies this, rk
      ensures status == if bits == 128 || bits == 192 || bits == 256 then Ok else InvalidKeyLength
      ensures status == Ok ==> Keyed() && keybits == bits && key == LoadKey(k, bits / 32)
    {
      hide Expand, LoadWord;
      if bits != 128 && bits != 192 && bits != 256 {
        return InvalidKeyLength;
      }
      keybits := bits;
      nr := bits / 32 + 6;
      SwKeyExpand(rk, k, bits / 32);
      key := LoadKey(k, bits / 32);
      if bits == 128 {
        hwKey := [LoadWord(k, 0), LoadWord(k, 1), LoadWord(k, 2), LoadWord(k, 3)];
        hasHw := true;
      } else {
        hasHw := false;
      }
      return Ok;
    }

    /** `mbedtls_aes_crypt_ecb`: always software. */
    method CryptEcb(mode: Mode, input: Block) returns (output: Block)
      requires Keyed()
      ensures output == if mode == EncryptMode then Cipher(key)(input) else Decipher(key)(input)
    {
      hide Encrypt, Decrypt, Expand;
      var w := rk[..4 * (nr + 1)];
      if mode == EncryptMode {
        output := SwEncryptBlock(w, nr, input);
      } else {
        output := SwDecryptBlock(w, nr, input);
      }
    }
  }
}
