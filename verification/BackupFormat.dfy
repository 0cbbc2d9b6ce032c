/**
 The encrypted archive format: magic, length-prefixed sealed frames, and a trailer that
 is told from a frame only by its length word.
 */
module BackupFormat {
  import opened Common
  import opened Sequences

  type byte = b: int | 0 <= b < 256
  type Bytes = seq<byte>

  const CHUNK := 65536
  const NONCE := 12
  const TAG := 16
  const MAC := 32
  const MAX_FRAME := CHUNK + NONCE + TAG

  /** "GLIBKUP1" */
  const MAGIC: Bytes := [71, 76, 73, 66, 75, 85, 80, 49]

  // ---------------------------------------------------------------------
  // Primitives
  // ---------------------------------------------------------------------

  /** AES-GCM and HMAC-SHA256 under one key. */
  datatype Crypto = Crypto(seal: (Bytes, Bytes) -> Bytes, open: (Bytes, Bytes) -> Option<Bytes>, mac: Bytes -> Bytes)

  /** What the format relies on: sealing adds a tag and can be opened again, macs have one length. */
  ghost predicate Lawful(k: Crypto) {
    && (forall n, x :: |k.seal(n, x)| == |x| + TAG && k.open(n, k.seal(n, x)) == Some(x))
    && (forall x :: |k.mac(x)| == MAC)
  }

  /** A source of nonces; the i-th draw can be anything of the right length. */
  type Nonces = nat -> Bytes

  ghost predicate Sized(rng: Nonces) {
    forall i :: |rng(i)| == NONCE
  }

  function LowByte(n: nat): byte { n % 256 }

  /** Big-endian 32-bit length word; longer lengths are cut to 32 bits. */
  function U32(n: nat): (r: Bytes)
    ensures |r| == 4
  {
    [LowByte(n / 16777216), LowByte(n / 65536), LowByte(n / 256), LowByte(n)]
  }

  function FromU32(b: Bytes): nat
    requires |b| == 4
  {
    (((b[0] as int) * 256 + b[1] as int) * 256 + b[2] as int) * 256 + b[3] as int
  }

  lemma U32RoundTrip(n: nat)
    requires n < 0x1_0000_0000
    ensures FromU32(U32(n)) == n
  {
    var a, b := n / 256, n / 65536;
    assert a / 256 == b && b / 256 == n / 16777216 < 256;
    assert n == a * 256 + n % 256 && a == b * 256 + a % 256 && b == (b / 256) * 256 + b % 256;
  }

  // ---------------------------------------------------------------------
  // Writing
  // ---------------------------------------------------------------------

  function FrameBody(k: Crypto, nonce: Bytes, chunk: Bytes): Bytes {
    nonce + k.seal(nonce, chunk)
  }

  /** Length word, nonce and sealed chunk. */
  function Frame(k: Crypto, nonce: Bytes, chunk: Bytes): Bytes {
    U32(|FrameBody(k, nonce, chunk)|) + FrameBody(k, nonce, chunk)
  }

  /** The frames of a list of chunks, drawing nonces from number i on. */
  function Frames(k: Crypto, rng: Nonces, i: nat, cs: seq<Bytes>): Bytes
    decreases |cs|
  {
    if cs == [] then [] else Frame(k, rng(i), cs[0]) + Frames(k, rng, i + 1, cs[1..])
  }

  /** The plaintext in pieces of 64 KiB, the last one possibly shorter. */
  function Chunks(plain: Bytes): seq<Bytes> {
    if plain == [] then []
    else if |plain| <= CHUNK then [plain]
    else [plain[..CHUNK]] + Chunks(plain[CHUNK..])
  }

  function Flat(cs: seq<Bytes>): Bytes {
    if cs == [] then [] else cs[0] + Flat(cs[1..])
  }

  function Trailer(k: Crypto, before: Bytes): Bytes {
    U32(|k.mac(before)|) + k.mac(before)
  }

  /** The archive of a plaintext. */
  function Archive(k: Crypto, rng: Nonces, plain: Bytes): Bytes {
    var before := MAGIC + Frames(k, rng, 0, Chunks(plain));
    before + Trailer(k, before)
  }

  // ---------------------------------------------------------------------
  // The two readers, as functions of the bytes that are left
  // ---------------------------------------------------------------------

  datatype Fault = ShortMagic | WrongMagic | ShortLength | ShortMac | InvalidLength | ShortBody | BadMac | Undecryptable

  /** Frames before the trailer, and the bytes from the trailer's length word on. */
  datatype Scan = Found(frames: seq<Bytes>, rest: Bytes) | Broken(fault: Fault)

  function Prepend(fs: seq<Bytes>, s: Scan): Scan {
    match s
    case Found(gs, rest) => Found(fs + gs, rest)
    case Broken(_) => s
  }

  /** The boundaries seen by the integrity check. */
  function VerifyScan(f: Bytes): Scan
    decreases |f|
  {
    if |f| < 4 then Broken(ShortLength)
    else
      var n := FromU32(f[..4]);
      if n == MAC then (if |f| < 4 + MAC then Broken(ShortMac) else Found([], f))
      else if n < NONCE + TAG || n > MAX_FRAME then Broken(InvalidLength)
      else if |f| < 4 + n then Broken(ShortBody)
      else Prepend([f[4..4 + n]], VerifyScan(f[4 + n..]))
  }

  /** The integrity check on a whole file. */
  function VerifyFault(k: Crypto, f: Bytes): Option<Fault> {
    if |f| < |MAGIC| then Some(ShortMagic)
    else if f[..|MAGIC|] != MAGIC then Some(WrongMagic)
    else match VerifyScan(f[|MAGIC|..])
         case Broken(fault) => Some(fault)
         case Found(_, rest) =>
           if |rest| < 4 + MAC || |rest| > |f| then Some(ShortMac)
           else if k.mac(f[..|f| - |rest|]) == rest[4..4 + MAC] then None
           else Some(BadMac)
  }

  /** The boundaries seen by the decrypting reader, which has no upper limit on frames. */
  function ReadScan(f: Bytes): Scan
    decreases |f|
  {
    if |f| < 4 then Broken(ShortLength)
    else
      var n := FromU32(f[..4]);
      if n == MAC then (if |f| < 4 + MAC then Broken(ShortMac) else Found([], f))
      else if n < NONCE + TAG then Broken(InvalidLength)
      else if |f| < 4 + n then Broken(ShortBody)
      else Prepend([f[4..4 + n]], ReadScan(f[4 + n..]))
  }

  datatype End = Eof | Failed(fault: Fault)

  /** What a reader will still deliver, and how it ends. */
  datatype Decoded = Decoded(data: Bytes, end: End)

  /** The decrypting reader. */
  function Decode(k: Crypto, f: Bytes): Decoded
    decreases |f|
  {
    if |f| < 4 then Decoded([], Failed(ShortLength))
    else
      var n := FromU32(f[..4]);
      if n == MAC then Decoded([], if |f| < 4 + MAC then Failed(ShortMac) else Eof)
      else if n < NONCE + TAG then Decoded([], Failed(InvalidLength))
      else if |f| < 4 + n then Decoded([], Failed(ShortBody))
      else After(OpenBody(k, f[4..4 + n]), Decode(k, f[4 + n..]))
  }

  function OpenBody(k: Crypto, body: Bytes): Option<Bytes>
    requires NONCE <= |body|
  {
    k.open(body[..NONCE], body[NONCE..])
  }

  /** One opened frame in front of what follows. */
  function After(block: Option<Bytes>, rest: Decoded): Decoded {
    match block
    case None => Decoded([], Failed(Undecryptable))
    case Some(x) => Decoded(x + rest.data, rest.end)
  }

  /** Opening a list of frames up to the first that does not open. */
  function OpenAll(k: Crypto, fs: seq<Bytes>): Decoded
    requires forall i :: 0 <= i < |fs| ==> NONCE <= |fs[i]|
  {
    if fs == [] then Decoded([], Eof) else After(OpenBody(k, fs[0]), OpenAll(k, fs[1..]))
  }
}
