/**
 The contract of the /dev/aes engine. A request is carried out under the same AES as the software, or it ends early,
 after any bytes, perhaps none, were written. What the engine answers during a call is an input of that call.
 */
module Engine {
  import opened Bytes
  import opened AesKey
  import opened AesContext
  import opened BlockModes

  datatype Answer =
    | Served
    | Stopped(written: seq<byte>)

  /** Whether /dev/aes can be opened, and what it answers to a request for either mode. */
  datatype Device = Device(available: bool, ecb: Answer, cbc: Answer)

  /** A buffer after the engine stopped. */
  function Torn(x: seq<byte>, written: seq<byte>): (y: seq<byte>)
    ensures |y| == |x|
  {
    var n := Min(|written|, |x|);
    written[..n] + x[n..]
  }

  function Cbc(mode: Mode, key: Key, iv: Block, x: seq<byte>): (y: seq<byte>)
    requires |x| % 16 == 0
    ensures |y| == |x|
  {
    if mode == EncryptMode then CbcEncrypt(Cipher(key), iv, x) else CbcDecrypt(Decipher(key), iv, x)
  }

  method RequestCbc(answer: Answer, key: Key, iv: Block, mode: Mode, length: nat, input: array<byte>,
                    output: array<byte>)
    returns (done: bool)
    requires length % 16 == 0 && length <= input.Length && length <= output.Length
    modifies output
    ensures done == answer.Served?
    ensures done ==> output[..] == Cbc(mode, key, iv, old(input[..length])) + old(output[length..])
    ensures !done ==> output[..] == Torn(old(output[..length]), answer.written) + old(output[length..])
  {
    done := answer.Served?;
    Copy(if done then Cbc(mode, key, iv, input[..length]) else Torn(output[..length], answer.written), output, 0);
  }

  method RequestEcb(answer: Answer, key: Key, input: seq<byte>, n: nat, output: array<byte>) returns (done: bool)
    requires |input| == 16 * n && 16 * n <= output.Length
    modifies output
    ensures done == answer.Served?
    ensures done ==> output[..] == Ecb(Cipher(key), input, n) + old(output[16 * n..])
    ensures !done ==> output[..] == Torn(old(output[..16 * n]), answer.written) + old(output[16 * n..])
  {
    done := answer.Served?;
    Copy(if done then Ecb(Cipher(key), input, n) else Torn(output[..16 * n], answer.written), output, 0);
  }
}
