/** Which byte strings the two readers accept, said of the bytes alone. */
module BackupLayout {
  import opened Common
  import opened Sequences
  import opened BackupFormat
  import opened BackupTheory

  /** One more than the largest length word. */
  const WORDS := 0x1_0000_0000

  /** Frames behind their length words. */
  function Blocks(frames: seq<Bytes>): Bytes {
    if frames == [] then [] else U32(|frames[0]|) + frames[0] + Blocks(frames[1..])
  }

  /** At least a nonce and a tag, at most the limit, and not as long as a mac. */
  ghost predicate LegalFrames(frames: seq<Bytes>, limit: nat) {
    forall i :: 0 <= i < |frames| ==> 28 <= |frames[i]| <= limit && |frames[i]| != 32
  }

  /** A trailer: the length word of a mac and at least as many bytes. */
  ghost predicate AtTrailer(rest: Bytes) {
    36 <= |rest| && rest[..4] == [0, 0, 0, 32]
  }

  /** Why no frame and no trailer can be read here. */
  ghost predicate Stuck(rest: Bytes, limit: nat, fault: Fault) {
    match fault
    case ShortLength => |rest| < 4
    case ShortMac => 4 <= |rest| < 36 && rest[..4] == [0, 0, 0, 32]
    case InvalidLength =>
      4 <= |rest| && exists n: nat :: rest[..4] == U32(n) && n < WORDS && n != 32 && (n < 28 || limit < n)
    case ShortBody =>
      4 <= |rest| &&
      exists n: nat :: rest[..4] == U32(n) && 28 <= n <= limit && n < WORDS && n != 32 && |rest| < 4 + n
    case _ => false
  }

  // ---------------------------------------------------------------------
  // Length words
  // ---------------------------------------------------------------------

  /** Length words are big-endian. */
  lemma U32BigEndian(n: nat)
    requires n < WORDS
    ensures var w := U32(n);
            n == w[0] as int * 16777216 + w[1] as int * 65536 + w[2] as int * 256 + w[3] as int
  {
    U32RoundTrip(n);
  }

  /** Any four bytes are the word of one length. */
  lemma WordOf(b: Bytes)
    requires |b| == 4
    ensures FromU32(b) < WORDS && U32(FromU32(b)) == b
  {
    var n := FromU32(b);
    var hi := (b[0] as int * 256 + b[1] as int) * 256 + b[2] as int;
    assert n == hi * 256 + b[3] as int && n / 256 == hi && n % 256 == b[3] as int;
    var top := b[0] as int * 256 + b[1] as int;
    assert hi / 256 == top && hi % 256 == b[2] as int && n / 65536 == top;
    assert top / 256 == b[0] as int && top % 256 == b[1] as int && n / 16777216 == b[0] as int;
  }

  /** The file starts with the text of the magic. */
  lemma MagicText()
    ensures |MAGIC| == 8 && forall i :: 0 <= i < 8 ==> MAGIC[i] as int == "GLIBKUP1"[i] as int
  {
  }

  lemma MacWord()
    ensures U32(32) == [0, 0, 0, 32]
  {
  }

  lemma WordUnique(m: nat, n: nat)
    requires m < WORDS && n < WORDS && U32(m) == U32(n)
    ensures m == n
  {
    U32RoundTrip(m);
    U32RoundTrip(n);
  }

  // ---------------------------------------------------------------------
  // Every input is frames and a place where reading stops
  // ---------------------------------------------------------------------

  /** What stops a reader with the given limit. */
  datatype Stop = Trailer | Fault(fault: BackupFormat.Fault)

  ghost predicate StopsAt(rest: Bytes, limit: nat, stop: Stop) {
    match stop
    case Trailer => AtTrailer(rest)
    case Fault(fault) => Stuck(rest, limit, fault)
  }

  /** The input falls into frames and a rest at which reading stops. */
  ghost predicate Divides(f: Bytes, limit: nat, frames: seq<Bytes>, rest: Bytes, stop: Stop) {
    f == Blocks(frames) + rest && LegalFrames(frames, limit) && StopsAt(rest, limit, stop)
  }

  lemma BlocksCons(frame: Bytes, frames: seq<Bytes>, rest: Bytes)
    ensures Blocks([frame] + frames) + rest == U32(|frame|) + frame + (Blocks(frames) + rest)
  {
    assert ([frame] + frames)[1..] == frames;
    ConcatAssoc(U32(|frame|) + frame, Blocks(frames), rest);
  }

  lemma LegalCons(frame: Bytes, frames: seq<Bytes>, limit: nat)
    ensures LegalFrames([frame] + frames, limit) <==>
            28 <= |frame| <= limit && |frame| != 32 && LegalFrames(frames, limit)
  {
    var all := [frame] + frames;
    assert all[0] == frame && forall i :: 0 <= i < |frames| ==> all[i + 1] == frames[i];
  }

  /** What a reader with some limit finds at the front of an input. */
  lemma StopsHere(f: Bytes, limit: nat) returns (stop: Stop)
    requires limit < WORDS
    requires |f| < 4 || var n := FromU32(f[..4]); n == 32 || n < 28 || limit < n || |f| < 4 + n
    ensures StopsAt(f, limit, stop)
    ensures |f| < 4 ==> stop == Fault(ShortLength)
    ensures |f| >= 4 ==>
              var n := FromU32(f[..4]);
              stop == if n == 32 then (if |f| < 36 then Fault(ShortMac) else Trailer)
                      else if n < 28 || limit < n then Fault(InvalidLength) else Fault(ShortBody)
  {
    if |f| < 4 {
      return Fault(ShortLength);
    }
    var n := FromU32(f[..4]);
    WordOf(f[..4]);
    MacWord();
    stop := if n == 32 then (if |f| < 36 then Fault(ShortMac) else Trailer)
            else if n < 28 || limit < n then Fault(InvalidLength) else Fault(ShortBody);
  }

  /** A frame that can be read whole. */
  lemma FrameHere(f: Bytes) returns (frame: Bytes, rest: Bytes)
    requires 4 <= |f| && 4 + FromU32(f[..4]) <= |f|
    ensures var n := FromU32(f[..4]);
            frame == f[4..4 + n] && rest == f[4 + n..] && |frame| == n && f == U32(n) + frame + rest
  {
    var n := FromU32(f[..4]);
    WordOf(f[..4]);
    frame, rest := f[4..4 + n], f[4 + n..];
    assert f == f[..4] + frame + rest;
  }

  function AsScan(frames: seq<Bytes>, rest: Bytes, stop: Stop): Scan {
    if stop.Trailer? then Found(frames, rest) else Broken(stop.fault)
  }

  /** The integrity check divides every input, with frames of at most 65564 bytes. */
  lemma {:induction false} CheckDivides(f: Bytes) returns (frames: seq<Bytes>, rest: Bytes, stop: Stop)
    ensures Divides(f, 65564, frames, rest, stop) && VerifyScan(f) == AsScan(frames, rest, stop)
    decreases |f|
  {
    if |f| < 4 || (var n := FromU32(f[..4]); n == 32 || n < 28 || 65564 < n || |f| < 4 + n) {
      stop := StopsHere(f, 65564);
      frames, rest := [], f;
      Whole(f);
    } else {
      var frame, behind := FrameHere(f);
      frames, rest, stop := CheckDivides(behind);
      BlocksCons(frame, frames, rest);
      LegalCons(frame, frames, 65564);
      frames := [frame] + frames;
    }
  }

  /** The reader divides every input, with frames of any length. */
  lemma {:induction false} ReaderDivides(f: Bytes) returns (frames: seq<Bytes>, rest: Bytes, stop: Stop)
    ensures Divides(f, WORDS - 1, frames, rest, stop) && ReadScan(f) == AsScan(frames, rest, stop)
    decreases |f|
  {
    if |f| >= 4 {
      WordOf(f[..4]);
    }
    if |f| < 4 || (var n := FromU32(f[..4]); n == 32 || n < 28 || |f| < 4 + n) {
      stop := StopsHere(f, WORDS - 1);
      frames, rest := [], f;
      Whole(f);
    } else {
      var frame, behind := FrameHere(f);
      frames, rest, stop := ReaderDivides(behind);
      BlocksCons(frame, frames, rest);
      LegalCons(frame, frames, WORDS - 1);
      frames := [frame] + frames;
    }
  }

  // ---------------------------------------------------------------------
  // In one way only
  // ---------------------------------------------------------------------

  /** Where reading stops no legal frame starts. */
  lemma NoFrameAtStop(frame: Bytes, tail: Bytes, limit: nat, stop: Stop)
    requires 28 <= |frame| <= limit < WORDS && |frame| != 32
    ensures !StopsAt(U32(|frame|) + frame + tail, limit, stop)
  {
    var f := U32(|frame|) + frame + tail;
    assert |f| == 4 + |frame| + |tail| && f[..4] == U32(|frame|);
    MacWord();
    if f[..4] == U32(32) {
      WordUnique(|frame|, 32);
    }
    forall n: nat | n < WORDS && f[..4] == U32(n) ensures n == |frame| {
      WordUnique(n, |frame|);
    }
  }

  lemma SameBlock(a: Bytes, x: Bytes, b: Bytes, y: Bytes)
    requires |a| < WORDS && |b| < WORDS && U32(|a|) + a + x == U32(|b|) + b + y
    ensures a == b && x == y
  {
    BlockParts(a, x);
    BlockParts(b, y);
  }

  lemma StopUnique(rest: Bytes, limit: nat, a: Stop, b: Stop)
    requires limit < WORDS && StopsAt(rest, limit, a) && StopsAt(rest, limit, b)
    ensures a == b
  {
    MacWord();
    if |rest| >= 4 {
      var n := FromU32(rest[..4]);
      WordOf(rest[..4]);
      forall m: nat | m < WORDS && rest[..4] == U32(m) ensures m == n {
        WordUnique(m, n);
      }
    }
  }

  /** There is one way to divide an input. */
  lemma {:induction false} DividesUnique(f: Bytes, limit: nat, fs: seq<Bytes>, x: Bytes, a: Stop,
                                         gs: seq<Bytes>, y: Bytes, b: Stop)
    requires limit < WORDS && Divides(f, limit, fs, x, a) && Divides(f, limit, gs, y, b)
    ensures fs == gs && x == y && a == b
    decreases |fs|
  {
    if fs == [] && gs == [] {
      Whole(x);
      Whole(y);
      StopUnique(x, limit, a, b);
    } else if fs == [] {
      ConcatAssoc(U32(|gs[0]|) + gs[0], Blocks(gs[1..]), y);
      Whole(x);
      NoFrameAtStop(gs[0], Blocks(gs[1..]) + y, limit, a);
    } else if gs == [] {
      ConcatAssoc(U32(|fs[0]|) + fs[0], Blocks(fs[1..]), x);
      Whole(y);
      NoFrameAtStop(fs[0], Blocks(fs[1..]) + x, limit, b);
    } else {
      ConcatAssoc(U32(|fs[0]|) + fs[0], Blocks(fs[1..]), x);
      ConcatAssoc(U32(|gs[0]|) + gs[0], Blocks(gs[1..]), y);
      SameBlock(fs[0], Blocks(fs[1..]) + x, gs[0], Blocks(gs[1..]) + y);
      DividesUnique(Blocks(fs[1..]) + x, limit, fs[1..], x, a, gs[1..], y, b);
      assert fs == [fs[0]] + fs[1..] && gs == [gs[0]] + gs[1..];
    }
  }

  // ---------------------------------------------------------------------
  // What the writer writes
  // ---------------------------------------------------------------------

  /** The i-th piece of 64 KiB; the last one may be shorter. */
  function Piece(plain: Bytes, i: nat): Bytes
    requires i * 65536 <= |plain|
  {
    plain[i * 65536..if (i + 1) * 65536 <= |plain| then (i + 1) * 65536 else |plain|]
  }

  lemma {:induction false} ChunkIsPiece(plain: Bytes, i: nat)
    requires i < |Chunks(plain)|
    ensures i * 65536 < |plain| && Chunks(plain)[i] == Piece(plain, i)
    decreases i
  {
    if i == 0 {
      Whole(plain);
    } else {
      var rest := plain[65536..];
      ChunkIsPiece(rest, i - 1);
      PieceBehind(plain, i);
    }
  }

  lemma PieceBehind(plain: Bytes, i: nat)
    requires 0 < i && 65536 <= |plain| && (i - 1) * 65536 <= |plain| - 65536
    ensures Piece(plain, i) == Piece(plain[65536..], i - 1)
  {
  }

  /** A frame is the nonce drawn for it followed by its sealed piece. */
  ghost predicate SealedPiece(k: Crypto, rng: Nonces, plain: Bytes, frame: Bytes, i: nat) {
    i * 65536 < |plain| && frame == rng(i) + k.seal(rng(i), Piece(plain, i))
  }

  lemma {:induction false} FramesAreBlocks(k: Crypto, rng: Nonces, i: nat, cs: seq<Bytes>)
    ensures Frames(k, rng, i, cs) == Blocks(Bodies(k, rng, i, cs)) && |Bodies(k, rng, i, cs)| == |cs|
    decreases |cs|
  {
    if cs != [] {
      FramesAreBlocks(k, rng, i + 1, cs[1..]);
      TailOfConcat([FrameBody(k, rng(i), cs[0])], Bodies(k, rng, i + 1, cs[1..]));
      Whole(Bodies(k, rng, i + 1, cs[1..]));
    }
  }

  lemma {:induction false} BodyAt(k: Crypto, rng: Nonces, i: nat, cs: seq<Bytes>, j: nat)
    requires j < |cs|
    ensures |Bodies(k, rng, i, cs)| == |cs| && Bodies(k, rng, i, cs)[j] == rng(i + j) + k.seal(rng(i + j), cs[j])
    decreases |cs|
  {
    FramesAreBlocks(k, rng, i, cs);
    if j > 0 {
      BodyAt(k, rng, i + 1, cs[1..], j - 1);
    }
  }

  /**
   An archive is the magic, one frame per piece of the plaintext with a nonce of its own, the word 32
   and the mac of all that.
   */
  lemma ArchiveExactly(k: Crypto, rng: Nonces, plain: Bytes) returns (frames: seq<Bytes>)
    requires Lawful(k)
    ensures Archive(k, rng, plain) ==
            MAGIC + Blocks(frames) + ([0, 0, 0, 32] + k.mac(MAGIC + Blocks(frames)))
    ensures (|frames| - 1) * 65536 < |plain| <= |frames| * 65536 || (plain == [] && frames == [])
    ensures forall i :: 0 <= i < |frames| ==> SealedPiece(k, rng, plain, frames[i], i)
  {
    var cs := Chunks(plain);
    frames := Bodies(k, rng, 0, cs);
    FramesAreBlocks(k, rng, 0, cs);
    MacWord();
    forall i | 0 <= i < |frames| ensures SealedPiece(k, rng, plain, frames[i], i) {
      BodyAt(k, rng, 0, cs, i);
      ChunkIsPiece(plain, i);
    }
    ChunksShape(plain);
    if cs == [] {
      assert plain == [];
    }
  }

  // ---------------------------------------------------------------------
  // What the integrity check accepts
  // ---------------------------------------------------------------------

  /** The magic, legal frames, the word 32, the mac of all that, and anything behind it. */
  ghost predicate Accepted(k: Crypto, f: Bytes, frames: seq<Bytes>, tail: Bytes) {
    var before := MAGIC + Blocks(frames);
    LegalFrames(frames, 65564) && |k.mac(before)| == 32 && f == before + ([0, 0, 0, 32] + k.mac(before) + tail)
  }

  /** Exactly these files pass the integrity check. */
  lemma VerifyExactly(k: Crypto, f: Bytes)
    ensures VerifyFault(k, f).None? <==> exists frames, tail :: Accepted(k, f, frames, tail)
  {
    if VerifyFault(k, f).None? {
      PassingIsAccepted(k, f);
    }
    if frames, tail :| Accepted(k, f, frames, tail) {
      AcceptedPasses(k, f, frames, tail);
    }
  }

  lemma PassingIsAccepted(k: Crypto, f: Bytes)
    requires VerifyFault(k, f).None?
    ensures exists frames, tail :: Accepted(k, f, frames, tail)
  {
    var frames, rest, stop := CheckDivides(f[|MAGIC|..]);
    SplitAtRest(k, f, Blocks(frames), rest);
    SplitTrailer(rest);
    assert Accepted(k, f, frames, rest[36..]);
  }

  lemma SplitTrailer(rest: Bytes)
    requires AtTrailer(rest)
    ensures rest == [0, 0, 0, 32] + rest[4..36] + rest[36..]
  {
    assert rest == rest[..4] + rest[4..36] + rest[36..];
  }

  lemma AcceptedPasses(k: Crypto, f: Bytes, frames: seq<Bytes>, tail: Bytes)
    requires Accepted(k, f, frames, tail)
    ensures VerifyFault(k, f).None?
  {
    var before := MAGIC + Blocks(frames);
    var rest := [0, 0, 0, 32] + k.mac(before) + tail;
    ConcatAssoc(MAGIC, Blocks(frames), rest);
    ConcatSlices(MAGIC, Blocks(frames) + rest);
    assert rest[..4] == [0, 0, 0, 32] && rest[4..36] == k.mac(before);
    assert Divides(f[|MAGIC|..], 65564, frames, rest, Trailer);
    var gs, y, stop := CheckDivides(f[|MAGIC|..]);
    DividesUnique(f[|MAGIC|..], 65564, frames, rest, Trailer, gs, y, stop);
    SplitAtRest(k, f, Blocks(frames), rest);
  }

  /** Which fault is reported for the others. */
  lemma FaultExactly(k: Crypto, f: Bytes)
    ensures VerifyFault(k, f) == Some(ShortMagic) <==> |f| < 8
    ensures VerifyFault(k, f) == Some(WrongMagic) <==> |f| >= 8 && f[..8] != MAGIC
    ensures VerifyFault(k, f) == Some(BadMac) <==>
            |f| >= 8 && f[..8] == MAGIC && VerifyFault(k, f).Some? &&
            exists frames, rest :: Divides(f[8..], 65564, frames, rest, Trailer)
    ensures |f| >= 8 && f[..8] == MAGIC ==>
              forall fault :: fault != BadMac ==>
                (VerifyFault(k, f) == Some(fault) <==>
                 exists frames, rest :: Divides(f[8..], 65564, frames, rest, Fault(fault)))
  {
    if |f| >= 8 && f[..8] == MAGIC {
      var frames, rest, stop := CheckDivides(f[8..]);
      SplitAtRest(k, f, Blocks(frames), rest);
      forall fs, x, a | Divides(f[8..], 65564, fs, x, a) ensures a == stop {
        DividesUnique(f[8..], 65564, fs, x, a, frames, rest, stop);
      }
    }
  }

  // ---------------------------------------------------------------------
  // What the reader delivers
  // ---------------------------------------------------------------------

  /** The frames before the first that does not open, opened, and how reading ends if all do. */
  function Opened(k: Crypto, frames: seq<Bytes>, end: End): Decoded
    requires forall i :: 0 <= i < |frames| ==> 28 <= |frames[i]|
  {
    if frames == [] then Decoded([], end)
    else
      match k.open(frames[0][..12], frames[0][12..])
      case None => Decoded([], Failed(Undecryptable))
      case Some(x) =>
        var rest := Opened(k, frames[1..], end);
        Decoded(x + rest.data, rest.end)
  }

  function EndOf(stop: Stop): End {
    if stop.Trailer? then Eof else Failed(stop.fault)
  }

  /** On every input the reader delivers the opened frames and ends as the place where they end says. */
  lemma {:induction false} DecodeExactly(k: Crypto, f: Bytes, frames: seq<Bytes>, rest: Bytes, stop: Stop)
    requires Divides(f, WORDS - 1, frames, rest, stop)
    ensures Decode(k, f) == Opened(k, frames, EndOf(stop))
    decreases |frames|
  {
    if frames == [] {
      Whole(rest);
      DecodeStops(k, f, stop);
    } else {
      var tail := Blocks(frames[1..]) + rest;
      ConcatAssoc(U32(|frames[0]|) + frames[0], Blocks(frames[1..]), rest);
      BlockParts(frames[0], tail);
      DecodeExactly(k, tail, frames[1..], rest, stop);
    }
  }

  lemma DecodeStops(k: Crypto, f: Bytes, stop: Stop)
    requires StopsAt(f, WORDS - 1, stop)
    ensures Decode(k, f) == Decoded([], EndOf(stop))
  {
    MacWord();
    if |f| >= 4 {
      var n := FromU32(f[..4]);
      WordOf(f[..4]);
      forall m: nat | m < WORDS && f[..4] == U32(m) ensures m == n {
        WordUnique(m, n);
      }
      U32RoundTrip(32);
    }
  }

  /** The frames before a trailer that all open. */
  ghost predicate Readable(k: Crypto, f: Bytes, frames: seq<Bytes>, rest: Bytes, data: Bytes) {
    && Divides(f, WORDS - 1, frames, rest, Trailer)
    && Opened(k, frames, Eof) == Decoded(data, Eof)
  }

  /** Exactly the inputs that are frames that open, and a trailer, are read to their end without a fault. */
  lemma EofExactly(k: Crypto, f: Bytes, data: Bytes)
    ensures Decode(k, f) == Decoded(data, Eof) <==> exists frames, rest :: Readable(k, f, frames, rest, data)
  {
    var frames, rest, stop := ReaderDivides(f);
    DecodeExactly(k, f, frames, rest, stop);
    if stop.Fault? {
      EndsFailed(k, frames, stop.fault);
    } else {
      assert Opened(k, frames, Eof) == Decoded(data, Eof) ==> Readable(k, f, frames, rest, data);
    }
    if fs, x :| Readable(k, f, fs, x, data) {
      DecodeExactly(k, f, fs, x, Trailer);
    }
  }

  lemma {:induction false} EndsFailed(k: Crypto, frames: seq<Bytes>, fault: BackupFormat.Fault)
    requires forall i :: 0 <= i < |frames| ==> 28 <= |frames[i]|
    ensures Opened(k, frames, Failed(fault)).end.Failed?
  {
    if frames != [] {
      EndsFailed(k, frames[1..], fault);
    }
  }
}
