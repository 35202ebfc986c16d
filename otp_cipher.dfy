/**
 * The one-time-pad stream wrappers: a reader that XORs what the wrapped
 * reader delivers with the next keystream bytes, and a writer that XORs
 * what it is given before passing it on.
 *
 * The keystream is a finite byte sequence that the pad's reader hands out
 * front to front; the wrapped reader and writer are represented by what
 * they do on the call (the bytes delivered or accepted and the error).
 */
module OtpCipher {
  import opened GoBase

  /** The errors of the streams: the ends `io.ReadFull` reports, and any error of a wrapped stream. */
  datatype IoError = EOF | UnexpectedEOF | Failed(code: nat)

  function Xor(a: seq<byte>, b: seq<byte>): (c: seq<byte>)
    requires |a| == |b|
    ensures |c| == |a|
  {
    seq(|a|, i requires 0 <= i < |a| => a[i] ^ b[i])
  }

  /** XOR with the same pad twice gives the text back. */
  lemma XorInvolution(a: seq<byte>, k: seq<byte>)
    requires |a| == |k|
    ensures Xor(Xor(a, k), k) == a
  {
    forall i | 0 <= i < |a| ensures Xor(Xor(a, k), k)[i] == a[i] {
      assert (a[i] ^ k[i]) ^ k[i] == a[i];
    }
  }

  lemma XorAppend(a: seq<byte>, b: seq<byte>, k: seq<byte>, l: seq<byte>)
    requires |a| == |k| && |b| == |l|
    ensures Xor(a + b, k + l) == Xor(a, k) + Xor(b, l)
  {
  }

  /**
   * The error of `io.ReadFull` asking the keystream for n bytes: none when
   * there are enough, EOF when there are none, UnexpectedEOF when there
   * are some but too few.
   */
  function ReadFullError(ks: seq<byte>, n: nat): (e: Option<IoError>)
    ensures e.None? <==> n <= |ks|
  {
    if n <= |ks| then None else if |ks| == 0 then Some(EOF) else Some(UnexpectedEOF)
  }

  /** The loop of `Read`: p[i] ^= pad[i] for the first |pad| bytes of p. */
  method XorInPlace(p: array<byte>, pad: seq<byte>)
    requires |pad| <= p.Length
    modifies p
    ensures forall j :: 0 <= j < |pad| ==> p[j] == old(p[j]) ^ pad[j]
    ensures forall j :: |pad| <= j < p.Length ==> p[j] == old(p[j])
  {
    for i := 0 to |pad|
      invariant forall j :: 0 <= j < i ==> p[j] == old(p[j]) ^ pad[j]
      invariant forall j :: i <= j < p.Length ==> p[j] == old(p[j])
    {
      p[i] := p[i] ^ pad[i];
    }
  }

  /** What the wrapped reader does on `r.Read(p)`: it puts the delivered bytes at the front of p. */
  method Deliver(p: array<byte>, delivered: seq<byte>)
    requires |delivered| <= p.Length
    modifies p
    ensures p[..] == delivered + old(p[|delivered|..])
  {
    for i := 0 to |delivered|
      invariant forall j :: 0 <= j < i ==> p[j] == delivered[j]
      invariant forall j :: i <= j < p.Length ==> p[j] == old(p[j])
    {
      p[i] := delivered[i];
    }
    assert p[..] == delivered + old(p[|delivered|..]) by {
      forall j | 0 <= j < p.Length ensures p[j] == (delivered + old(p[|delivered|..]))[j] {
      }
    }
  }

  /**
   * The buffer `Write` has `io.ReadFull` fill with the pad and then XORs
   * with p, in place: a fresh array holding p XOR pad, with p left alone.
   */
  method Encrypt(p: array<byte>, pad: seq<byte>) returns (prngData: array<byte>)
    requires |pad| == p.Length
    ensures fresh(prngData) && prngData[..] == Xor(p[..], pad)
  {
    var src := p[..];
    prngData := new byte[p.Length](j requires 0 <= j < p.Length => pad[j]);
    for i := 0 to p.Length
      modifies prngData
      invariant forall j :: 0 <= j < i ==> prngData[j] == pad[j] ^ src[j]
      invariant forall j :: i <= j < p.Length ==> prngData[j] == pad[j]
    {
      prngData[i] := prngData[i] ^ src[i];
    }
    assert prngData[..] == Xor(src, pad) by {
      forall j | 0 <= j < p.Length ensures prngData[j] == src[j] ^ pad[j] {
        assert pad[j] ^ src[j] == src[j] ^ pad[j];
      }
    }
  }

  class OtpReader {
    /** The bytes the pad's reader has still to give. */
    var keystream: seq<byte>
    /** The pad the reader was made over. */
    ghost const pad: seq<byte>
    /** The non-empty deliveries so far, and the plaintext Read has returned for them. */
    ghost var received: seq<seq<byte>>
    ghost var plaintext: seq<byte>

    /** While the pad has not run short: the plaintext is Through(pad, received), and the keystream is what follows. */
    ghost predicate Streaming()
      reads this
    {
      |Flatten(received)| <= |pad| && plaintext == Through(pad, received) && keystream == pad[|Flatten(received)|..]
    }

    /** `NewReader`. */
    constructor (pad: seq<byte>)
      ensures keystream == pad && this.pad == pad && received == [] && Streaming()
    {
      keystream := pad;
      this.pad := pad;
      received, plaintext := [], [];
    }

    /**
     * `Read(p)`, where the wrapped reader puts `delivered` at the front of p
     * and reports `rerr`. The delivered bytes are XORed with as many
     * keystream bytes and the wrapped reader's count and error returned;
     * when the keystream runs short the result is (0, its error), the
     * delivered bytes are left as they came and the keystream is used up.
     */
    method Read(p: array<byte>, delivered: seq<byte>, rerr: Option<IoError>) returns (n: nat, err: Option<IoError>)
      requires |delivered| <= p.Length
      modifies this, p
      ensures delivered == [] ==> n == 0 && err == rerr && keystream == old(keystream) && p[..] == old(p[..])
      ensures delivered != [] && |delivered| > |old(keystream)| ==>
        n == 0 && err == ReadFullError(old(keystream), |delivered|) && keystream == [] &&
        p[..] == delivered + old(p[|delivered|..])
      ensures delivered != [] && |delivered| <= |old(keystream)| ==>
        n == |delivered| && err == rerr && keystream == old(keystream)[n..] &&
        p[..] == Xor(delivered, old(keystream)[..n]) + old(p[n..])
      ensures old(Streaming()) && delivered != [] && |delivered| <= |old(keystream)| ==>
        Streaming() && received == old(received) + [delivered] && plaintext == old(plaintext) + p[..n]
      ensures !(delivered != [] && |delivered| <= |old(keystream)|) ==>
        received == old(received) && plaintext == old(plaintext)
    {
      ghost var streaming := Streaming();
      Deliver(p, delivered);
      n, err := |delivered|, rerr;
      if n > 0 {
        var e := ReadFullError(keystream, n);
        if e.Some? {
          keystream := [];
          return 0, e;
        }
        var prngData := keystream[..n];
        keystream := keystream[n..];
        ghost var arrived := p[..];
        XorInPlace(p, prngData);
        assert p[..] == Xor(delivered, prngData) + old(p[n..]) by {
          forall j | 0 <= j < p.Length ensures p[j] == (Xor(delivered, prngData) + old(p[n..]))[j] {
            assert arrived[j] == (delivered + old(p[n..]))[j];
          }
        }
        if streaming {
          StreamStep(pad, received, plaintext, old(keystream), delivered);
          assert p[..n] == Xor(delivered, prngData);
          received, plaintext := received + [delivered], plaintext + p[..n];
        }
      } else {
        assert p[..] == old(p[..]);
      }
    }
  }

  class OtpWriter {
    /** The bytes the pad's reader has still to give. */
    var keystream: seq<byte>
    /** What the wrapped writer has accepted so far. */
    var written: seq<byte>
    /** The pad the writer was made over. */
    ghost const pad: seq<byte>
    /** The chunks written in full so far. */
    ghost var sent: seq<seq<byte>>

    /** While every write has gone through in full: the wrapped writer holds Through(pad, sent), and the keystream is what follows. */
    ghost predicate Streaming()
      reads this
    {
      |Flatten(sent)| <= |pad| && written == Through(pad, sent) && keystream == pad[|Flatten(sent)|..]
    }

    /** `NewWriter`, over a wrapped writer that has accepted nothing yet. */
    constructor (pad: seq<byte>)
      ensures keystream == pad && written == [] && this.pad == pad && sent == [] && Streaming()
    {
      keystream := pad;
      written := [];
      this.pad := pad;
      sent := [];
    }

    /**
     * `Write(p)`, where the wrapped writer accepts the first `accept` bytes
     * and reports `werr` (an `io.Writer` reports an error when it accepts
     * fewer than all). p itself is never changed.
     */
    method Write(p: array<byte>, accept: nat, werr: Option<IoError>) returns (n: nat, err: Option<IoError>)
      requires accept <= p.Length && (accept < p.Length ==> werr.Some?)
      modifies this
      ensures p.Length > |old(keystream)| ==>
        n == 0 && err == ReadFullError(old(keystream), p.Length) && keystream == [] && written == old(written)
      ensures p.Length <= |old(keystream)| ==>
        keystream == old(keystream)[p.Length..] &&
        written == old(written) + Xor(p[..], old(keystream)[..p.Length])[..accept] &&
        (if werr.Some? then n == accept && err == werr else n == p.Length && err.None?)
      ensures old(Streaming()) && p.Length <= |old(keystream)| && accept == p.Length ==>
        Streaming() && sent == old(sent) + [p[..]]
      ensures !(p.Length <= |old(keystream)| && accept == p.Length) ==> sent == old(sent)
    {
      ghost var streaming := Streaming();
      var e := ReadFullError(keystream, p.Length);
      if e.Some? {
        keystream := [];
        return 0, e;
      }
      var pad := keystream[..p.Length];
      keystream := keystream[p.Length..];
      var prngData := Encrypt(p, pad);
      written := written + prngData[..accept];
      if accept == p.Length {
        if streaming {
          StreamStep(this.pad, sent, old(written), old(keystream), p[..]);
        }
        sent := sent + [p[..]];
      }
      if werr.Some? {
        return accept, werr;
      }
      return p.Length, None;
    }
  }

  // ---------------------------------------------------------------------
  // Whole streams

  function Flatten(chunks: seq<seq<byte>>): seq<byte> {
    if chunks == [] then [] else chunks[0] + Flatten(chunks[1..])
  }

  /**
   * What a sequence of calls puts through the pad, chunk by chunk, each
   * chunk taking the next keystream bytes: the writer's output for its
   * chunks, or the reader's plaintext for its deliveries.
   */
  function Through(ks: seq<byte>, chunks: seq<seq<byte>>): (r: seq<byte>)
    requires |Flatten(chunks)| <= |ks|
    ensures |r| == |Flatten(chunks)|
  {
    if chunks == [] then []
    else
      assert |Flatten(chunks)| == |chunks[0]| + |Flatten(chunks[1..])|;
      Xor(chunks[0], ks[..|chunks[0]|]) + Through(ks[|chunks[0]|..], chunks[1..])
  }

  /** The chunk boundaries do not matter: the stream is XORed with the keystream as a whole. */
  lemma {:induction false} ThroughWhole(ks: seq<byte>, chunks: seq<seq<byte>>)
    requires |Flatten(chunks)| <= |ks|
    ensures Through(ks, chunks) == Xor(Flatten(chunks), ks[..|Flatten(chunks)|])
  {
    if chunks != [] {
      var c, rest := chunks[0], Flatten(chunks[1..]);
      ThroughWhole(ks[|c|..], chunks[1..]);
      assert ks[..|c| + |rest|] == ks[..|c|] + ks[|c|..][..|rest|];
      XorAppend(c, rest, ks[..|c|], ks[|c|..][..|rest|]);
    }
  }

  /**
   * One more call on the stream: a Write of chunk c that the wrapped writer
   * fully accepts appends to `written`, and a Read delivering c leaves in p,
   * the XOR of c with the keystream bytes that follow those of the earlier
   * chunks (the `old(keystream)[..|c|]` of their contracts); the keystream
   * left over is what follows c's bytes. By induction over the calls, a
   * writer made over ks has written Through(ks, chunks) after writing
   * chunks, and a reader returns Through(ks, deliveries).
   */
  lemma {:induction false} ThroughStep(ks: seq<byte>, chunks: seq<seq<byte>>, c: seq<byte>)
    requires |Flatten(chunks)| + |c| <= |ks|
    ensures |Flatten(chunks + [c])| == |Flatten(chunks)| + |c|
    ensures Through(ks, chunks + [c]) == Through(ks, chunks) + Xor(c, ks[|Flatten(chunks)|..][..|c|])
    ensures ks[|Flatten(chunks + [c])|..] == ks[|Flatten(chunks)|..][|c|..]
  {
    var f := Flatten(chunks);
    var k1, k2 := ks[..|f|], ks[|f|..][..|c|];
    FlattenSnoc(chunks, c);
    ThroughWhole(ks, chunks);
    ThroughWhole(ks, chunks + [c]);
    assert Through(ks, chunks + [c]) == Xor(f + c, ks[..|f| + |c|]);
    assert ks[..|f| + |c|] == k1 + k2;
    XorAppend(f, c, k1, k2);
  }

  /**
   * ThroughStep for a stream's state: `out` has gone through for `chunks`
   * and `ks` is the keystream left; one more chunk c that fits extends both.
   */
  lemma StreamStep(pad: seq<byte>, chunks: seq<seq<byte>>, out: seq<byte>, ks: seq<byte>, c: seq<byte>)
    requires |Flatten(chunks)| <= |pad| && out == Through(pad, chunks) && ks == pad[|Flatten(chunks)|..]
    requires |c| <= |ks|
    ensures |Flatten(chunks + [c])| <= |pad|
    ensures out + Xor(c, ks[..|c|]) == Through(pad, chunks + [c])
    ensures ks[|c|..] == pad[|Flatten(chunks + [c])|..]
  {
    ThroughStep(pad, chunks, c);
  }

  lemma {:induction false} FlattenSnoc(chunks: seq<seq<byte>>, c: seq<byte>)
    ensures Flatten(chunks + [c]) == Flatten(chunks) + c
  {
    if chunks != [] {
      assert (chunks + [c])[1..] == chunks[1..] + [c];
      FlattenSnoc(chunks[1..], c);
    } else {
      assert Flatten([c]) == c + Flatten([]);
    }
  }

  /**
   * Reading back what the writer wrote, through the same keystream and in
   * any chunking the wrapped reader chooses, gives the plaintext.
   */
  lemma RoundTrip(ks: seq<byte>, writes: seq<seq<byte>>, deliveries: seq<seq<byte>>)
    requires |Flatten(writes)| <= |ks|
    requires Flatten(deliveries) == Through(ks, writes)
    ensures Through(ks, deliveries) == Flatten(writes)
  {
    ThroughWhole(ks, writes);
    ThroughWhole(ks, deliveries);
    XorInvolution(Flatten(writes), ks[..|Flatten(writes)|]);
  }

  /**
   * A reader over the writer's pad that has been delivered exactly what
   * the wrapped writer accepted, in whatever chunks, has returned the
   * bytes that were written.
   */
  lemma StreamRoundTrip(w: OtpWriter, r: OtpReader)
    requires w.Streaming() && r.Streaming() && w.pad == r.pad
    requires Flatten(r.received) == w.written
    ensures r.plaintext == Flatten(w.sent)
  {
    RoundTrip(w.pad, w.sent, r.received);
  }
}
