/**
 What service-provider/crypto.c, base64.c and OpenSSL compute for the server, as total functions
 about which nothing is known but the sizes of their results.
 */
module Crypto {
  import opened CText
  import opened HexUtil

  type bytes = seq<byte>

  function Zeros(n: nat): (z: bytes)
    ensures |z| == n && forall i :: 0 <= i < n ==> z[i] == 0
  {
    seq(n, _ => 0)
  }

  type Block = b: bytes | |b| == 16 witness Zeros(16)
  type Digest = b: bytes | |b| == 32 witness Zeros(32)
  type Point = b: bytes | |b| == 64 witness Zeros(64)

  datatype Primitives = Primitives(
    cmac: (Block, bytes) -> Block,
    sha256: bytes -> Digest,
    // r and s of the signature under the service's private key, most significant byte first
    sign: bytes -> (Digest, Digest),
    // the public half of a session key, in the client's byte order
    publicHalf: bytes -> Point,
    // the x-coordinate agreed on with the peer's public half; None for a peer that is no point
    sharedSecret: (bytes, Point) -> Option<bytes>,
    encrypt: (Block, Block) -> Block,
    base64Encode: bytes -> string,
    base64Decode: string -> Option<bytes>,
    // whether a text holds a certificate, whether such texts form a chain up to the signing CA,
    // and the first one's public key
    certLoads: string -> bool,
    chainVerifies: seq<string> -> bool,
    publicKey: string -> Option<bytes>,
    verifies: (bytes, string, bytes) -> bool)

  // An unsigned number as len bytes, least significant first.
  function LittleEndian(n: nat, len: nat): (b: bytes)
    ensures |b| == len
    decreases len
  {
    if len == 0 then [] else [n % 256] + LittleEndian(n / 256, len - 1)
  }

  function Unsigned(b: bytes): nat {
    if b == [] then 0 else b[0] + 256 * Unsigned(b[1..])
  }

  function Power(len: nat): (p: nat)
    ensures p > 0
  {
    if len == 0 then 1 else 256 * Power(len - 1)
  }

  lemma {:induction false} UnsignedOfLittleEndian(n: nat, len: nat)
    requires n < Power(len)
    ensures Unsigned(LittleEndian(n, len)) == n
    decreases len
  {
    if len > 0 {
      UnsignedOfLittleEndian(n / 256, len - 1);
      assert LittleEndian(n, len)[1..] == LittleEndian(n / 256, len - 1);
    }
  }

  function Reversed(b: bytes): (r: bytes)
    ensures |r| == |b|
    ensures forall i :: 0 <= i < |b| ==> r[i] == b[|b| - 1 - i]
  {
    seq(|b|, i requires 0 <= i < |b| => b[|b| - 1 - i])
  }
}
