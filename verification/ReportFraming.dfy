/**
 The preimage of the report digest: every canonical chunk (header, then items) is
 preceded by its length in 8 big-endian bytes.
 */
module ReportFraming {
  import opened Support

  const LENGTH_BYTES: nat := 8

  function Power256(width: nat): nat {
    if width == 0 then 1 else 256 * Power256(width - 1)
  }

  /** `n.to_bytes(width, "big")`; only meaningful below `256^width`. */
  function BigEndian(n: nat, width: nat): (s: Bytes)
    ensures |s| == width
  {
    if width == 0 then [] else BigEndian(n / 256, width - 1) + [(n % 256) as Byte]
  }

  function FromBigEndian(s: Bytes): nat {
    if s == [] then 0 else FromBigEndian(s[..|s| - 1]) * 256 + s[|s| - 1] as nat
  }

  lemma {:induction false} EncodedNumberDecodes(n: nat, width: nat)
    requires n < Power256(width)
    ensures FromBigEndian(BigEndian(n, width)) == n
  {
    if width > 0 {
      assert n / 256 < Power256(width - 1);
      EncodedNumberDecodes(n / 256, width - 1);
      assert BigEndian(n, width)[..width - 1] == BigEndian(n / 256, width - 1);
    }
  }

  lemma {:induction false} DecodedNumberEncodes(s: Bytes)
    ensures FromBigEndian(s) < Power256(|s|)
    ensures BigEndian(FromBigEndian(s), |s|) == s
  {
    if s != [] {
      DecodedNumberEncodes(s[..|s| - 1]);
      assert s == s[..|s| - 1] + [s[|s| - 1]];
    }
  }

  /** `to_bytes(8, "big")` raises for a length that does not fit. */
  predicate Fits(chunk: Bytes) {
    |chunk| < Power256(LENGTH_BYTES)
  }

  function Frame(chunk: Bytes): Bytes {
    BigEndian(|chunk|, LENGTH_BYTES) + chunk
  }

  function Framed(chunks: seq<Bytes>): Bytes {
    if chunks == [] then [] else Framed(chunks[..|chunks| - 1]) + Frame(chunks[|chunks| - 1])
  }

  /** The accumulator loop; it raises at the first chunk whose length does not fit. */
  method Preimage(chunks: seq<Bytes>) returns (accumulated: Option<Bytes>)
    ensures accumulated == if forall i :: 0 <= i < |chunks| ==> Fits(chunks[i]) then Some(Framed(chunks)) else None
  {
    var bytes: Bytes := [];
    for i := 0 to |chunks|
      invariant bytes == Framed(chunks[..i])
      invariant forall j :: 0 <= j < i ==> Fits(chunks[j])
    {
      if !Fits(chunks[i]) {
        return None;
      }
      bytes := bytes + BigEndian(|chunks[i]|, LENGTH_BYTES);
      bytes := bytes + chunks[i];
      assert chunks[..i + 1][..i] == chunks[..i];
    }
    assert chunks[..|chunks|] == chunks;
    return Some(bytes);
  }

  /** Read frames until the bytes are used up. */
  function Unframed(bytes: Bytes): Option<seq<Bytes>>
    decreases |bytes|
  {
    if bytes == [] then Some([])
    else if |bytes| < LENGTH_BYTES then None
    else
      var length := FromBigEndian(bytes[..LENGTH_BYTES]);
      if |bytes| < LENGTH_BYTES + length then None
      else
        match Unframed(bytes[LENGTH_BYTES + length..])
        case None => None
        case Some(rest) => Some([bytes[LENGTH_BYTES..LENGTH_BYTES + length]] + rest)
  }

  lemma FramedSnoc(chunks: seq<Bytes>, last: Bytes)
    ensures Framed(chunks + [last]) == Framed(chunks) + Frame(last)
  {
    assert (chunks + [last])[..|chunks|] == chunks;
  }

  lemma Regrouped(a: Bytes, b: Bytes, c: Bytes)
    ensures (a + b) + c == a + (b + c)
  {}

  lemma {:induction false} FramedFromFront(chunks: seq<Bytes>)
    requires chunks != []
    ensures Framed(chunks) == Frame(chunks[0]) + Framed(chunks[1..])
  {
    var last := |chunks| - 1;
    if last == 0 {
      assert chunks[..0] == [] && chunks[1..] == [];
    } else {
      var middle := chunks[1..last];
      FramedFromFront(chunks[..last]);
      assert chunks[..last][1..] == middle && chunks[1..] == middle + [chunks[last]];
      FramedSnoc(middle, chunks[last]);
      Regrouped(Frame(chunks[0]), Framed(middle), Frame(chunks[last]));
    }
  }

  lemma OneMoreByte(s: Bytes, k: nat)
    requires k < |s|
    ensures FromBigEndian(s[..k + 1]) == FromBigEndian(s[..k]) * 256 + s[k] as int
  {
    assert s[..k + 1][..k] == s[..k];
  }

  /** `n` followed by four more bytes, the highest first. */
  ghost function FourMore(n: int, s: Bytes, k: nat): int
    requires k + 4 <= |s|
  {
    (((n * 256 + s[k] as int) * 256 + s[k + 1] as int) * 256 + s[k + 2] as int) * 256 + s[k + 3] as int
  }

  lemma FourMoreBytes(s: Bytes, k: nat)
    requires k + 4 <= |s|
    ensures FromBigEndian(s[..k + 4]) == FourMore(FromBigEndian(s[..k]), s, k)
  {
    OneMoreByte(s, k);
    OneMoreByte(s, k + 1);
    OneMoreByte(s, k + 2);
    OneMoreByte(s, k + 3);
  }

  /** A frame is its chunk behind its length in eight bytes, the highest first; longer chunks do not fit. */
  lemma FrameIs(chunk: Bytes)
    ensures Fits(chunk) <==> |chunk| < 0x1_0000_0000_0000_0000
    ensures var frame := Frame(chunk);
            && |frame| == 8 + |chunk| && frame[8..] == chunk
            && (Fits(chunk) ==>
                  |chunk| == FourMore(FourMore(0, frame, 0), frame, 4))
  {
    assert Power256(LENGTH_BYTES) == 0x1_0000_0000_0000_0000 by {
      assert Power256(4) == 0x1_0000_0000 && Power256(8) == 256 * (256 * (256 * (256 * Power256(4))));
    }
    if Fits(chunk) {
      EncodedNumberDecodes(|chunk|, LENGTH_BYTES);
      var length := BigEndian(|chunk|, LENGTH_BYTES);
      FourMoreBytes(length, 0);
      FourMoreBytes(length, 4);
      assert length[..8] == length && length[..0] == [];
    }
  }

  /** Where a frame in front of other bytes ends. */
  lemma FrameInFront(chunk: Bytes, rest: Bytes)
    requires Fits(chunk)
    ensures var bytes := Frame(chunk) + rest;
            && FromBigEndian(bytes[..LENGTH_BYTES]) == |chunk| && |bytes| >= LENGTH_BYTES + |chunk|
            && bytes[LENGTH_BYTES..LENGTH_BYTES + |chunk|] == chunk && bytes[LENGTH_BYTES + |chunk|..] == rest
  {
    EncodedNumberDecodes(|chunk|, LENGTH_BYTES);
    assert (Frame(chunk) + rest)[..LENGTH_BYTES] == BigEndian(|chunk|, LENGTH_BYTES);
  }

  /** Unique decodability: the preimage gives back header and items, in order. */
  lemma {:induction false} FramedDecodes(chunks: seq<Bytes>)
    requires forall i :: 0 <= i < |chunks| ==> Fits(chunks[i])
    ensures Unframed(Framed(chunks)) == Some(chunks)
  {
    if chunks != [] {
      FramedFromFront(chunks);
      FrameInFront(chunks[0], Framed(chunks[1..]));
      FramedDecodes(chunks[1..]);
      assert chunks == [chunks[0]] + chunks[1..];
    }
  }

  lemma FramedCons(chunk: Bytes, chunks: seq<Bytes>)
    ensures Framed([chunk] + chunks) == Frame(chunk) + Framed(chunks)
  {
    FramedFromFront([chunk] + chunks);
    assert ([chunk] + chunks)[1..] == chunks;
  }

  lemma FrameOf(head: Bytes, body: Bytes)
    requires |head| == LENGTH_BYTES && FromBigEndian(head) == |body|
    ensures Frame(body) == head + body
  {
    DecodedNumberEncodes(head);
  }

  /** And nothing else decodes: whatever is read as frames is their framing. */
  lemma {:induction false} DecodedFrames(bytes: Bytes)
    requires Unframed(bytes).Some?
    ensures Framed(Unframed(bytes).value) == bytes
    decreases |bytes|
  {
    if bytes != [] {
      var body, rest := FirstFrame(bytes);
      DecodedFrames(rest);
      FramedCons(body, Unframed(rest).value);
    }
  }

  /** Reading the first frame splits the bytes there. */
  lemma FirstFrame(bytes: Bytes) returns (body: Bytes, rest: Bytes)
    requires bytes != [] && Unframed(bytes).Some?
    ensures |rest| < |bytes| && Unframed(rest).Some?
    ensures bytes == Frame(body) + rest
    ensures Unframed(bytes).value == [body] + Unframed(rest).value
  {
    var head := bytes[..LENGTH_BYTES];
    var length := FromBigEndian(head);
    body := bytes[LENGTH_BYTES..LENGTH_BYTES + length];
    rest := bytes[LENGTH_BYTES + length..];
    FrameOf(head, body);
    assert bytes == (head + body) + rest;
  }

  /** Equal preimages mean equal header and items in order. */
  lemma EqualPreimagesMeanEqualReports(a: seq<Bytes>, b: seq<Bytes>)
    requires forall i :: 0 <= i < |a| ==> Fits(a[i])
    requires forall i :: 0 <= i < |b| ==> Fits(b[i])
    requires Framed(a) == Framed(b)
    ensures a == b
  {
    FramedDecodes(a);
    FramedDecodes(b);
  }
}
