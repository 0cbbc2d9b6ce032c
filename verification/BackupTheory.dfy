/** Facts about the archive format: chunking, scanning, and when reading undoes writing. */
module BackupTheory {
  import opened Common
  import opened Sequences
  import opened BackupFormat

  // ---------------------------------------------------------------------
  // Chunks
  // ---------------------------------------------------------------------

  ghost predicate AllFull(cs: seq<Bytes>) {
    forall i :: 0 <= i < |cs| ==> |cs[i]| == CHUNK
  }

  /** Chunks are nonempty, at most 64 KiB, all but the last exactly that, and lose nothing. */
  lemma {:induction false} ChunksShape(plain: Bytes)
    ensures var cs := Chunks(plain);
            && Flat(cs) == plain
            && (forall i :: 0 <= i < |cs| ==> 0 < |cs[i]| <= CHUNK)
            && (forall i :: 0 <= i < |cs| - 1 ==> |cs[i]| == CHUNK)
            && (cs != [] ==> |plain| == (|cs| - 1) * CHUNK + |cs[|cs| - 1]|)
  {
    if plain != [] {
      if |plain| <= CHUNK {
        assert plain + [] == plain;
        assert [plain][1..] == [];
        assert Flat([plain]) == plain + Flat([]);
      } else {
        var rest := Chunks(plain[CHUNK..]);
        ChunksShape(plain[CHUNK..]);
        assert ([plain[..CHUNK]] + rest)[1..] == rest;
        assert plain[..CHUNK] + plain[CHUNK..] == plain;
      }
    }
  }

  lemma ChunksCons(c: Bytes, rest: Bytes)
    requires |c| == CHUNK
    ensures Chunks(c + rest) == [c] + Chunks(rest)
  {
    ConcatSlices(c, rest);
    if rest == [] {
      Whole(c);
      Whole([c]);
    }
  }

  /** Full chunks followed by a shorter buffer are the chunks of their concatenation. */
  lemma {:induction false} ChunksOfFlat(cs: seq<Bytes>, buf: Bytes)
    requires AllFull(cs) && |buf| < CHUNK
    ensures Chunks(Flat(cs) + buf) == cs + if buf == [] then [] else [buf]
  {
    var last := if buf == [] then [] else [buf];
    if cs == [] {
      Whole(buf);
      Whole(last);
    } else {
      ChunksOfFlat(cs[1..], buf);
      ChunksCons(cs[0], Flat(cs[1..]) + buf);
      ConcatAssoc(cs[0], Flat(cs[1..]), buf);
      ConcatAssoc([cs[0]], cs[1..], last);
      assert cs == [cs[0]] + cs[1..];
    }
  }

  /** The last chunk has length 4 exactly when the plaintext length leaves remainder 4. */
  lemma LastChunkLength(plain: Bytes, len: nat)
    requires 0 < len < CHUNK
    ensures |plain| % CHUNK == len <==>
            Chunks(plain) != [] && |Chunks(plain)[|Chunks(plain)| - 1]| == len
  {
    ChunksShape(plain);
    var cs := Chunks(plain);
    if cs != [] {
      Remainder(|cs| - 1, |cs[|cs| - 1]|);
    }
  }

  lemma Remainder(q: nat, r: nat)
    requires r <= CHUNK
    ensures (q * CHUNK + r) % CHUNK == if r == CHUNK then 0 else r
  {
  }

  lemma {:induction false} FlatAppend(cs: seq<Bytes>, c: Bytes)
    ensures Flat(cs + [c]) == Flat(cs) + c
  {
    if cs == [] {
      assert [] + [c] == [c] && [c][1..] == [];
      assert Flat([c]) == c + Flat([]);
      Whole(c);
    } else {
      FlatAppend(cs[1..], c);
      TailOfConcat(cs, [c]);
      ConcatAssoc(cs[0], Flat(cs[1..]), c);
    }
  }

  lemma {:induction false} FramesAppend(k: Crypto, rng: Nonces, i: nat, cs: seq<Bytes>, c: Bytes)
    ensures Frames(k, rng, i, cs + [c]) == Frames(k, rng, i, cs) + Frame(k, rng(i + |cs|), c)
    decreases |cs|
  {
    if cs == [] {
      assert [] + [c] == [c] && [c][1..] == [];
      assert Frames(k, rng, i, [c]) == Frame(k, rng(i), c) + Frames(k, rng, i + 1, []);
      Whole(Frame(k, rng(i), c));
    } else {
      FramesAppend(k, rng, i + 1, cs[1..], c);
      TailOfConcat(cs, [c]);
      ConcatAssoc(Frame(k, rng(i), cs[0]), Frames(k, rng, i + 1, cs[1..]), Frame(k, rng(i + |cs|), c));
    }
  }

  // ---------------------------------------------------------------------
  // Reading back one frame, one trailer
  // ---------------------------------------------------------------------

  /** A length word in front of some bytes. */
  lemma LengthWord(n: nat, tail: Bytes)
    requires n < 0x1_0000_0000
    ensures var f := U32(n) + tail;
            |f| == 4 + |tail| && FromU32(f[..4]) == n && f[4..] == tail
  {
    U32RoundTrip(n);
    ConcatSlices(U32(n), tail);
  }

  /** Body and rest of a length-prefixed block. */
  lemma BlockParts(body: Bytes, tail: Bytes)
    requires |body| < 0x1_0000_0000
    ensures var f := U32(|body|) + body + tail;
            && |f| == 4 + |body| + |tail| && FromU32(f[..4]) == |body|
            && f[4..4 + |body|] == body && f[4 + |body|..] == tail
  {
    var n := |body|;
    LengthWord(n, body + tail);
    ConcatAssoc(U32(n), body, tail);
    ConcatSlices(body, tail);
    var f := U32(n) + body + tail;
    DropTake(f, 4, n);
    DropDrop(f, 4, n);
  }

  /** The integrity check steps over a block of legal frame length. */
  lemma VerifyScanBlock(body: Bytes, tail: Bytes)
    requires NONCE + TAG <= |body| <= MAX_FRAME && |body| != MAC
    ensures VerifyScan(U32(|body|) + body + tail) == Prepend([body], VerifyScan(tail))
  {
    BlockParts(body, tail);
  }

  /** Either reader stops at a block of length 32, whatever it is. */
  lemma StopsAtMacLength(k: Crypto, body: Bytes, tail: Bytes)
    requires |body| == MAC
    ensures var f := U32(|body|) + body + tail;
            VerifyScan(f) == Found([], f) && Decode(k, f) == Decoded([], Eof)
  {
    BlockParts(body, tail);
  }

  lemma DecodeBlock(k: Crypto, body: Bytes, tail: Bytes)
    requires NONCE + TAG <= |body| <= MAX_FRAME && |body| != MAC
    ensures Decode(k, U32(|body|) + body + tail) == After(OpenBody(k, body), Decode(k, tail))
  {
    BlockParts(body, tail);
  }

  /** A frame body: its length, and that it opens to its chunk. */
  lemma BodyOpens(k: Crypto, nonce: Bytes, chunk: Bytes)
    requires Lawful(k) && |nonce| == NONCE
    ensures |FrameBody(k, nonce, chunk)| == NONCE + |chunk| + TAG
    ensures OpenBody(k, FrameBody(k, nonce, chunk)) == Some(chunk)
  {
    ConcatSlices(nonce, k.seal(nonce, chunk));
  }

  // ---------------------------------------------------------------------
  // Reading back a run of frames
  // ---------------------------------------------------------------------

  function Bodies(k: Crypto, rng: Nonces, i: nat, cs: seq<Bytes>): seq<Bytes>
    decreases |cs|
  {
    if cs == [] then [] else [FrameBody(k, rng(i), cs[0])] + Bodies(k, rng, i + 1, cs[1..])
  }

  /** Chunks the writer can emit whose frames are not mistaken for a trailer. */
  ghost predicate Plainly(cs: seq<Bytes>) {
    forall i :: 0 <= i < |cs| ==> |cs[i]| <= CHUNK && |cs[i]| != MAC - NONCE - TAG
  }

  lemma {:induction false} ScanFrames(k: Crypto, rng: Nonces, i: nat, cs: seq<Bytes>, tail: Bytes)
    requires Lawful(k) && Sized(rng) && Plainly(cs)
    ensures VerifyScan(Frames(k, rng, i, cs) + tail) == Prepend(Bodies(k, rng, i, cs), VerifyScan(tail))
    decreases |cs|
  {
    if cs == [] {
      Whole(tail);
      PrependNone(VerifyScan(tail));
    } else {
      var body, rest := FrameBody(k, rng(i), cs[0]), Frames(k, rng, i + 1, cs[1..]);
      ScanFrames(k, rng, i + 1, cs[1..], tail);
      BodyOpens(k, rng(i), cs[0]);
      VerifyScanBlock(body, rest + tail);
      ConcatAssoc(U32(|body|) + body, rest, tail);
      PrependTwice(body, Bodies(k, rng, i + 1, cs[1..]), VerifyScan(tail));
    }
  }

  lemma PrependNone(s: Scan)
    ensures Prepend([], s) == s
  {
    if s.Found? {
      Whole(s.frames);
    }
  }

  lemma PrependTwice(f: Bytes, fs: seq<Bytes>, s: Scan)
    ensures Prepend([f], Prepend(fs, s)) == Prepend([f] + fs, s)
  {
    if s.Found? {
      ConcatAssoc([f], fs, s.frames);
    }
  }

  lemma {:induction false} DecodeFrames(k: Crypto, rng: Nonces, i: nat, cs: seq<Bytes>, tail: Bytes)
    requires Lawful(k) && Sized(rng) && Plainly(cs)
    ensures var d := Decode(k, tail);
            Decode(k, Frames(k, rng, i, cs) + tail) == Decoded(Flat(cs) + d.data, d.end)
    decreases |cs|
  {
    if cs == [] {
      Whole(tail);
      Whole(Decode(k, tail).data);
    } else {
      var body, rest := FrameBody(k, rng(i), cs[0]), Frames(k, rng, i + 1, cs[1..]);
      DecodeFrames(k, rng, i + 1, cs[1..], tail);
      BodyOpens(k, rng(i), cs[0]);
      DecodeBlock(k, body, rest + tail);
      ConcatAssoc(U32(|body|) + body, rest, tail);
      ConcatAssoc(cs[0], Flat(cs[1..]), Decode(k, tail).data);
    }
  }

  // ---------------------------------------------------------------------
  // The round trip
  // ---------------------------------------------------------------------

  /** An archive passes the integrity check and decrypts to the plaintext. */
  ghost predicate Restores(k: Crypto, archive: Bytes, plain: Bytes) {
    && VerifyFault(k, archive).None?
    && Decode(k, archive[|MAGIC|..]) == Decoded(plain, Eof)
  }

  /** The archive behind the magic. */
  lemma ArchiveParts(k: Crypto, rng: Nonces, plain: Bytes)
    ensures var frames := Frames(k, rng, 0, Chunks(plain));
            var tail := Trailer(k, MAGIC + frames);
            var f := Archive(k, rng, plain);
            && |MAGIC| <= |f| && f[..|MAGIC|] == MAGIC && f[|MAGIC|..] == frames + tail
            && f[..|f| - |tail|] == MAGIC + frames
  {
    var frames := Frames(k, rng, 0, Chunks(plain));
    var tail := Trailer(k, MAGIC + frames);
    ConcatSlices(MAGIC + frames, tail);
    ConcatAssoc(MAGIC, frames, tail);
    ConcatSlices(MAGIC, frames + tail);
  }

  lemma TrailerParts(k: Crypto, before: Bytes)
    requires Lawful(k)
    ensures var tail := Trailer(k, before);
            && |tail| == 4 + MAC && tail[4..4 + MAC] == k.mac(before)
            && VerifyScan(tail) == Found([], tail) && Decode(k, tail) == Decoded([], Eof)
  {
    var m := k.mac(before);
    StopsAtMacLength(k, m, []);
    BlockParts(m, []);
    Whole(U32(|m|) + m);
  }

  /** Unless the length leaves remainder 4, the archive restores its plaintext. */
  lemma RoundTrip(k: Crypto, rng: Nonces, plain: Bytes)
    requires Lawful(k) && Sized(rng) && |plain| % CHUNK != 4
    ensures Restores(k, Archive(k, rng, plain), plain)
  {
    var cs := Chunks(plain);
    var before := MAGIC + Frames(k, rng, 0, cs);
    var tail := Trailer(k, before);
    ChunksShape(plain);
    LastChunkLength(plain, 4);
    ArchiveParts(k, rng, plain);
    TrailerParts(k, before);
    ScanFrames(k, rng, 0, cs, tail);
    DecodeFrames(k, rng, 0, cs, tail);
    Whole(plain);
  }

  /** What is in front of a last chunk of four bytes. */
  lemma SplitLast(k: Crypto, rng: Nonces, cs: seq<Bytes>)
    requires cs != []
    ensures var n := |cs| - 1;
            && Frames(k, rng, 0, cs) == Frames(k, rng, 0, cs[..n]) + Frame(k, rng(n), cs[n])
            && Flat(cs) == Flat(cs[..n]) + cs[n]
  {
    var n := |cs| - 1;
    SliceSnoc(cs, 0, n);
    Whole(cs);
    FramesAppend(k, rng, 0, cs[..n], cs[n]);
    FlatAppend(cs[..n], cs[n]);
  }

  /**
   When the length leaves remainder 4 the last frame is taken for the trailer: decryption
   ends cleanly four bytes early.
   */
  lemma LosesFourBytes(k: Crypto, rng: Nonces, plain: Bytes)
    requires Lawful(k) && Sized(rng) && |plain| % CHUNK == 4
    ensures |plain| >= 4 && Decode(k, Archive(k, rng, plain)[|MAGIC|..]) == Decoded(plain[..|plain| - 4], Eof)
  {
    var cs := Chunks(plain);
    ChunksShape(plain);
    LastChunkLength(plain, 4);
    ArchiveParts(k, rng, plain);
    var n := |cs| - 1;
    var head, body := cs[..n], FrameBody(k, rng(n), cs[n]);
    var tail := Trailer(k, MAGIC + Frames(k, rng, 0, cs));
    SplitLast(k, rng, cs);
    BodyOpens(k, rng(n), cs[n]);
    StopsAtMacLength(k, body, tail);
    ConcatAssoc(Frames(k, rng, 0, head), Frame(k, rng(n), cs[n]), tail);
    DecodeFrames(k, rng, 0, head, Frame(k, rng(n), cs[n]) + tail);
    Whole(Flat(head));
    ConcatSlices(Flat(head), cs[n]);
  }

  /** The last sealed frame happens to equal the mac of everything before it. */
  ghost predicate LastFrameIsMac(k: Crypto, rng: Nonces, plain: Bytes) {
    var cs := Chunks(plain);
    var n := |cs| - 1;
    n >= 0 && k.mac(MAGIC + Frames(k, rng, 0, cs[..n])) == FrameBody(k, rng(n), cs[n])
  }

  /** In that case the check compares the last frame with the mac of what precedes it. */
  lemma VerdictOnFourBytes(k: Crypto, rng: Nonces, plain: Bytes)
    requires Lawful(k) && Sized(rng) && |plain| % CHUNK == 4
    ensures VerifyFault(k, Archive(k, rng, plain)) == if LastFrameIsMac(k, rng, plain) then None else Some(BadMac)
  {
    var cs := Chunks(plain);
    ChunksShape(plain);
    LastChunkLength(plain, 4);
    ArchiveParts(k, rng, plain);
    var n := |cs| - 1;
    var head, body := Frames(k, rng, 0, cs[..n]), FrameBody(k, rng(n), cs[n]);
    var tail := Trailer(k, MAGIC + Frames(k, rng, 0, cs));
    SplitLast(k, rng, cs);
    BodyOpens(k, rng(n), cs[n]);
    ConcatAssoc(head, Frame(k, rng(n), cs[n]), tail);
    ScanFrames(k, rng, 0, cs[..n], Frame(k, rng(n), cs[n]) + tail);
    VerdictAt(k, Archive(k, rng, plain), head, body, tail, Bodies(k, rng, 0, cs[..n]));
  }

  /** The verdict when the frames in front are followed by a block of the length of a mac. */
  lemma VerdictAt(k: Crypto, f: Bytes, head: Bytes, body: Bytes, tail: Bytes, frames: seq<Bytes>)
    requires |MAGIC| <= |f| && f[..|MAGIC|] == MAGIC && |body| == MAC
    requires f[|MAGIC|..] == head + (U32(|body|) + body + tail)
    requires VerifyScan(f[|MAGIC|..]) == Prepend(frames, VerifyScan(U32(|body|) + body + tail))
    ensures VerifyFault(k, f) == if k.mac(MAGIC + head) == body then None else Some(BadMac)
  {
    var rest := U32(|body|) + body + tail;
    StopsAtMacLength(k, body, tail);
    BlockParts(body, tail);
    SplitAtRest(k, f, head, rest);
  }

  /** The file in front of the block that is taken for the trailer. */
  lemma SplitAtRest(k: Crypto, f: Bytes, head: Bytes, rest: Bytes)
    requires |MAGIC| <= |f| && f[..|MAGIC|] == MAGIC && f[|MAGIC|..] == head + rest
    ensures |rest| <= |f| && f[..|f| - |rest|] == MAGIC + head && f == MAGIC + head + rest
  {
    assert f == MAGIC + (head + rest);
    ConcatAssoc(MAGIC, head, rest);
    ConcatSlices(MAGIC + head, rest);
  }

  lemma NotRestored(k: Crypto, archive: Bytes, plain: Bytes, got: Bytes)
    requires |MAGIC| <= |archive| && |got| != |plain| && Decode(k, archive[|MAGIC|..]) == Decoded(got, Eof)
    ensures !Restores(k, archive, plain)
  {
  }

  /** Reading undoes writing exactly when the plaintext length does not leave remainder 4. */
  lemma RoundTripExact(k: Crypto, rng: Nonces, plain: Bytes)
    requires Lawful(k) && Sized(rng)
    ensures Restores(k, Archive(k, rng, plain), plain) <==> |plain| % CHUNK != 4
  {
    if |plain| % CHUNK == 4 {
      LosesFourBytes(k, rng, plain);
      NotRestored(k, Archive(k, rng, plain), plain, plain[..|plain| - 4]);
    } else {
      RoundTrip(k, rng, plain);
    }
  }

  // ---------------------------------------------------------------------
  // The two readers agree
  // ---------------------------------------------------------------------

  lemma {:induction false} ScanFramesAreSized(f: Bytes)
    requires VerifyScan(f).Found?
    ensures forall i :: 0 <= i < |VerifyScan(f).frames| ==> NONCE + TAG <= |VerifyScan(f).frames[i]| <= MAX_FRAME
    decreases |f|
  {
    var n := FromU32(f[..4]);
    if n != MAC {
      ScanFramesAreSized(f[4 + n..]);
    }
  }

  /** Frames within the limit of the writer. */
  ghost predicate Limited(frames: seq<Bytes>) {
    forall i :: 0 <= i < |frames| ==> |frames[i]| <= MAX_FRAME
  }

  lemma PrependLimited(frame: Bytes, s: Scan)
    requires s.Found?
    ensures Limited(Prepend([frame], s).frames) <==> |frame| <= MAX_FRAME && Limited(s.frames)
  {
    var all := [frame] + s.frames;
    assert all[0] == frame && forall i :: 0 <= i < |s.frames| ==> all[i + 1] == s.frames[i];
  }

  /**
   On every input the two readers see the same frames and the trailer at the same place, exactly
   when no frame in front of the trailer is longer than the writer makes them.
   */
  lemma {:induction false} ScannersAgree(f: Bytes)
    ensures VerifyScan(f).Found? <==> ReadScan(f).Found? && Limited(ReadScan(f).frames)
    ensures VerifyScan(f).Found? ==> VerifyScan(f) == ReadScan(f)
    decreases |f|
  {
    if |f| >= 4 {
      var n := FromU32(f[..4]);
      if n != MAC && NONCE + TAG <= n && 4 + n <= |f| {
        ScannersAgree(f[4 + n..]);
        if ReadScan(f[4 + n..]).Found? {
          PrependLimited(f[4..4 + n], ReadScan(f[4 + n..]));
        }
      }
    }
  }

  lemma {:induction false} ReadFramesAreSized(f: Bytes)
    requires ReadScan(f).Found?
    ensures forall i :: 0 <= i < |ReadScan(f).frames| ==> NONCE + TAG <= |ReadScan(f).frames[i]|
    decreases |f|
  {
    var n := FromU32(f[..4]);
    if n != MAC {
      ReadFramesAreSized(f[4 + n..]);
    }
  }

  /** The reader opens the frames between those boundaries in order, up to the first that does not open. */
  lemma {:induction false} DecodeOpensScan(k: Crypto, f: Bytes)
    requires ReadScan(f).Found?
    ensures (forall i :: 0 <= i < |ReadScan(f).frames| ==> NONCE <= |ReadScan(f).frames[i]|) &&
            Decode(k, f) == OpenAll(k, ReadScan(f).frames)
    decreases |f|
  {
    ReadFramesAreSized(f);
    var n := FromU32(f[..4]);
    if n != MAC {
      var rest := ReadScan(f[4 + n..]);
      DecodeOpensScan(k, f[4 + n..]);
      TailOfConcat([f[4..4 + n]], rest.frames);
      Whole(rest.frames);
    }
  }

  /** A lawful choice of primitives exists. */
  lemma LawfulExists()
    ensures exists k :: Lawful(k)
  {
    var tag := seq(TAG, _ => 0 as byte);
    var k := Crypto((n: Bytes, x: Bytes) => x + tag,
                    (n: Bytes, c: Bytes) => if |c| < TAG then None else Some(c[..|c| - TAG]),
                    (x: Bytes) => seq(MAC, _ => 0 as byte));
    forall n: Bytes, x: Bytes ensures |k.seal(n, x)| == |x| + TAG && k.open(n, k.seal(n, x)) == Some(x) {
      ConcatSlices(x, tag);
    }
    assert Lawful(k);
  }
}
