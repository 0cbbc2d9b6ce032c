/** The encrypting writer, the integrity check and the decrypting reader as running streams. */
module BackupStreams {
  import opened Common
  import opened Sequences
  import opened BackupFormat
  import opened BackupTheory

  // ---------------------------------------------------------------------
  // Writer
  // ---------------------------------------------------------------------

  class EncryptWriter {
    const k: Crypto
    const rng: Nonces
    var dst: Bytes
    var hashed: Bytes
    var buf: Bytes
    var drawn: nat

    ghost var chunks: seq<Bytes>

    /** Everything written so far has left in full chunks or waits in the buffer. */
    ghost predicate Valid()
      reads this
    {
      && Lawful(k) && Sized(rng)
      && AllFull(chunks) && |buf| < CHUNK
      && dst == MAGIC + Frames(k, rng, 0, chunks)
      && hashed == dst && drawn == |chunks|
    }

    ghost function Plain(): Bytes
      reads this
    {
      Flat(chunks) + buf
    }

    constructor (k: Crypto, rng: Nonces)
      requires Lawful(k) && Sized(rng)
      ensures Valid() && Plain() == [] && this.k == k && this.rng == rng
    {
      this.k, this.rng := k, rng;
      dst, hashed, buf, drawn, chunks := MAGIC, MAGIC, [], 0, [];
      new;
      Whole(MAGIC);
    }

    /** Writes to the destination and folds the bytes into the running mac. */
    method WriteRaw(b: Bytes)
      modifies this`dst, this`hashed
      ensures dst == old(dst) + b && hashed == old(hashed) + b
    {
      dst := dst + b;
      hashed := hashed + b;
    }

    /** Seals the buffer into one frame; an empty buffer leaves no trace. */
    method FlushChunk()
      modifies this`dst, this`hashed, this`buf, this`drawn
      ensures buf == []
      ensures old(buf) == [] ==> dst == old(dst) && hashed == old(hashed) && drawn == old(drawn)
      ensures old(buf) != [] ==> drawn == old(drawn) + 1
      ensures old(buf) != [] ==> dst == old(dst) + Frame(k, rng(old(drawn)), old(buf))
      ensures old(buf) != [] ==> hashed == old(hashed) + Frame(k, rng(old(drawn)), old(buf))
    {
      if buf == [] {
        return;
      }
      var nonce := rng(drawn);
      drawn := drawn + 1;
      var frame := nonce + k.seal(nonce, buf);
      WriteRaw(U32(|frame|));
      WriteRaw(frame);
      ConcatAssoc(old(dst), U32(|frame|), frame);
      ConcatAssoc(old(hashed), U32(|frame|), frame);
      buf := [];
    }

    /** A full buffer becomes one more full chunk. */
    method FlushFull()
      requires Lawful(k) && Sized(rng) && AllFull(chunks) && |buf| == CHUNK
      requires dst == MAGIC + Frames(k, rng, 0, chunks) && hashed == dst && drawn == |chunks|
      modifies this
      ensures Valid() && Plain() == old(Plain()) && buf == []
    {
      FramesAppend(k, rng, 0, chunks, buf);
      FlatAppend(chunks, buf);
      ConcatAssoc(MAGIC, Frames(k, rng, 0, chunks), Frame(k, rng(drawn), buf));
      ghost var more := chunks + [buf];
      FlushChunk();
      chunks := more;
      Whole(Flat(chunks));
    }

    method Write(p: Bytes) returns (written: nat)
      requires Valid()
      modifies this
      ensures Valid() && Plain() == old(Plain()) + p && written == |p|
    {
      written := 0;
      Whole(Plain());
      while written < |p|
        invariant Valid() && written <= |p|
        invariant Plain() == old(Plain()) + p[..written]
      {
        var n := CHUNK - |buf|;
        if n > |p| - written {
          n := |p| - written;
        }
        var piece := p[written..written + n];
        ConcatAssoc(Flat(chunks), buf, piece);
        ConcatAssoc(old(Plain()), p[..written], piece);
        TakeConcat(p, written, n);
        buf := buf + piece;
        written := written + n;
        if |buf| == CHUNK {
          FlushFull();
        }
      }
      Whole(p);
    }

    /** The finished archive depends only on the plaintext, not on how it was split into writes. */
    method Close()
      requires Valid()
      modifies this
      ensures dst == Archive(k, rng, old(Plain()))
    {
      var last := buf;
      ChunksOfFlat(chunks, last);
      FramesAppend(k, rng, 0, chunks, last);
      ConcatAssoc(MAGIC, Frames(k, rng, 0, chunks), Frame(k, rng(drawn), last));
      Whole(chunks);
      FlushChunk();
      ghost var before := MAGIC + Frames(k, rng, 0, Chunks(old(Plain())));
      assert dst == hashed == before;
      var sum := k.mac(hashed);
      WriteRaw(U32(|sum|));
      WriteRaw(sum);
      ConcatAssoc(before, U32(|sum|), sum);
    }
  }

  // ---------------------------------------------------------------------
  // Integrity check
  // ---------------------------------------------------------------------

  /** Reads the file once from the start, hashing as it goes, and compares the trailer. */
  method VerifyHmac(k: Crypto, f: Bytes) returns (fault: Option<Fault>)
    ensures fault == VerifyFault(k, f)
  {
    if |f| < |MAGIC| {
      return Some(ShortMagic);
    }
    if f[..|MAGIC|] != MAGIC {
      return Some(WrongMagic);
    }
    var hashed, rest := f[..|MAGIC|], f[|MAGIC|..];
    ghost var seen: seq<Bytes> := [];
    ghost var whole := VerifyScan(rest);
    PrependNone(whole);
    assert hashed + rest == f;
    while true
      invariant Scanned(f, whole, hashed, rest, seen)
      decreases |rest|
    {
      if |rest| < 4 {
        return Some(ShortLength);
      }
      var n := FromU32(rest[..4]);
      if n == MAC {
        if |rest| < 4 + MAC {
          return Some(ShortMac);
        }
        ConcatSlices(hashed, rest);
        return if k.mac(hashed) == rest[4..4 + MAC] then None else Some(BadMac);
      }
      if n < NONCE + TAG || n > MAX_FRAME {
        return Some(InvalidLength);
      }
      if |rest| < 4 + n {
        return Some(ShortBody);
      }
      var frame := rest[4..4 + n];
      ScannedOver(f, whole, hashed, rest, seen, n);
      hashed := hashed + rest[..4] + frame;
      rest := rest[4 + n..];
      seen := seen + [frame];
    }
  }

  /** The file is split into what was hashed and the rest, and the rest decides what the scan still finds. */
  ghost predicate Scanned(f: Bytes, whole: Scan, hashed: Bytes, rest: Bytes, seen: seq<Bytes>) {
    hashed + rest == f && whole == Prepend(seen, VerifyScan(rest))
  }

  lemma ScannedOver(f: Bytes, whole: Scan, hashed: Bytes, rest: Bytes, seen: seq<Bytes>, n: nat)
    requires Scanned(f, whole, hashed, rest, seen) && NONCE + TAG <= n <= MAX_FRAME && n != MAC
    requires 4 + n <= |rest| && FromU32(rest[..4]) == n
    ensures Scanned(f, whole, hashed + rest[..4] + rest[4..4 + n], rest[4 + n..], seen + [rest[4..4 + n]])
  {
    PrependMore(seen, rest[4..4 + n], VerifyScan(rest[4 + n..]));
    StepOver(hashed, rest, 4 + n);
  }

  lemma StepOver(hashed: Bytes, rest: Bytes, m: nat)
    requires 4 <= m <= |rest|
    ensures hashed + rest[..4] + rest[4..m] + rest[m..] == hashed + rest
  {
    assert rest == rest[..4] + rest[4..m] + rest[m..];
  }

  lemma PrependMore(fs: seq<Bytes>, f: Bytes, s: Scan)
    ensures Prepend(fs, Prepend([f], s)) == Prepend(fs + [f], s)
  {
    if s.Found? {
      ConcatAssoc(fs, [f], s.frames);
    }
  }

  // ---------------------------------------------------------------------
  // Reader
  // ---------------------------------------------------------------------

  datatype Status = Data | EndOfFile | Fail(fault: Fault)

  class DecryptReader {
    const k: Crypto
    var src: Bytes
    var pending: Bytes
    var eof: bool

    ghost predicate Valid()
      reads this
    {
      eof ==> pending == []
    }

    /** What the reader will still deliver, and how it will end. */
    ghost function Rest(): Decoded
      reads this
    {
      if eof then Decoded([], Eof)
      else Decoded(pending + Decode(k, src).data, Decode(k, src).end)
    }

    constructor (k: Crypto, src: Bytes)
      ensures Valid() && Rest() == Decode(k, src)
    {
      this.k, this.src, pending, eof := k, src, [], false;
      new;
      Whole(Decode(k, src).data);
    }

    /** Copies as much of `from` as fits into the caller's buffer. */
    method Copy(p: array<byte>, from: Bytes) returns (n: nat)
      modifies p
      ensures n == if p.Length < |from| then p.Length else |from|
      ensures p[..n] == from[..n]
    {
      n := if p.Length < |from| then p.Length else |from|;
      for i := 0 to n
        invariant p[..i] == from[..i]
      {
        p[i] := from[i];
        assert p[..i + 1] == p[..i] + [p[i]] && from[..i + 1] == from[..i] + [from[i]];
      }
    }

    /** Each read delivers the next bytes of what is left, and ends or fails only when none are. */
    method Read(p: array<byte>) returns (n: nat, status: Status)
      requires Valid()
      modifies this, p
      ensures Valid() && n <= p.Length
      ensures status == Data ==> (n > 0 || p.Length == 0) && n <= |old(Rest()).data|
      ensures status == Data ==> p[..n] == old(Rest()).data[..n]
      ensures status == Data ==> Rest() == Decoded(old(Rest()).data[n..], old(Rest()).end)
      ensures status == EndOfFile ==> n == 0 && old(Rest()) == Rest() == Decoded([], Eof)
      ensures status.Fail? ==> n == 0 && old(Rest()) == Decoded([], Failed(status.fault))
    {
      if |pending| > 0 {
        n := Copy(p, pending);
        Deliver(pending, Decode(k, src), n);
        pending := pending[n..];
        return n, Data;
      }
      Whole(Decode(k, src).data);
      if eof {
        return 0, EndOfFile;
      }
      while true
        invariant !eof && pending == []
        invariant old(Rest()) == Decode(k, src)
        decreases |src|
      {
        if |src| < 4 {
          src := [];
          return 0, Fail(ShortLength);
        }
        var len := FromU32(src[..4]);
        if len == MAC {
          if |src| < 4 + MAC {
            src := [];
            return 0, Fail(ShortMac);
          }
          src := src[4 + MAC..];
          eof := true;
          return 0, EndOfFile;
        }
        if len < NONCE + TAG {
          src := src[4..];
          return 0, Fail(InvalidLength);
        }
        if |src| < 4 + len {
          src := [];
          return 0, Fail(ShortBody);
        }
        var frame := src[4..4 + len];
        src := src[4 + len..];
        var plain := OpenBody(k, frame);
        if plain.None? {
          return 0, Fail(Undecryptable);
        }
        if |plain.value| == 0 {
          Whole(Decode(k, src).data);
          continue;
        }
        n := Copy(p, plain.value);
        Deliver(plain.value, Decode(k, src), n);
        if n < |plain.value| {
          pending := plain.value[n..];
        }
        return n, Data;
      }
    }
  }

  /** Taking bytes off the front of a delivered block. */
  lemma Deliver(block: Bytes, rest: Decoded, n: nat)
    requires n <= |block|
    ensures (block + rest.data)[..n] == block[..n]
    ensures (block + rest.data)[n..] == block[n..] + rest.data
    ensures n == |block| ==> block[n..] == []
  {
  }

  /** Reading with any buffer sizes to the end delivers everything there is, and how it ends. */
  method Drain(d: DecryptReader, size: nat -> nat) returns (out: Bytes, end: End)
    requires d.Valid() && forall i :: size(i) > 0
    modifies d
    ensures Decoded(out, end) == old(d.Rest())
  {
    out := [];
    var calls := 0;
    Whole(d.Rest().data);
    ghost var goal := d.Rest();
    while true
      invariant d.Valid()
      invariant goal == Decoded(out + d.Rest().data, d.Rest().end)
      decreases |d.Rest().data|
    {
      ghost var before := d.Rest();
      var p := new byte[size(calls)];
      var n, status := d.Read(p);
      match status
      case Data =>
        assert before.data == before.data[..n] + before.data[n..];
        ConcatAssoc(out, before.data[..n], before.data[n..]);
        out := out + p[..n];
        calls := calls + 1;
      case EndOfFile =>
        Whole(out);
        return out, Eof;
      case Fail(fault) =>
        Whole(out);
        return out, Failed(fault);
    }
  }

  // ---------------------------------------------------------------------
  // A whole backup and restore
  // ---------------------------------------------------------------------

  /**
   Written in any pieces and read back with any buffers: the archive is accepted and the
   plaintext returned whenever its length does not leave remainder 4.
   */
  method BackupAndRestore(k: Crypto, rng: Nonces, writes: seq<Bytes>, size: nat -> nat)
    returns (fault: Option<Fault>, out: Bytes, end: End)
    requires Lawful(k) && Sized(rng) && forall i :: size(i) > 0
    ensures |Flat(writes)| % CHUNK != 4 ==> fault == None && out == Flat(writes) && end == Eof
    ensures |Flat(writes)| % CHUNK == 4 ==> out == Flat(writes)[..|Flat(writes)| - 4] && end == Eof
    ensures |Flat(writes)| % CHUNK == 4 ==>
              fault == if LastFrameIsMac(k, rng, Flat(writes)) then None else Some(BadMac)
  {
    var w := new EncryptWriter(k, rng);
    for i := 0 to |writes|
      invariant fresh(w) && w.Valid() && w.k == k && w.rng == rng
      invariant w.Plain() == Flat(writes[..i])
    {
      FlatAppend(writes[..i], writes[i]);
      SliceSnoc(writes, 0, i);
      var n := w.Write(writes[i]);
    }
    Whole(writes);
    w.Close();
    ghost var plain := Flat(writes);
    ArchiveParts(k, rng, plain);
    if |plain| % CHUNK == 4 {
      LosesFourBytes(k, rng, plain);
      VerdictOnFourBytes(k, rng, plain);
    } else {
      RoundTrip(k, rng, plain);
    }
    fault := VerifyHmac(k, w.dst);
    var d := new DecryptReader(k, w.dst[|MAGIC|..]);
    out, end := Drain(d, size);
  }
}
