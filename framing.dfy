/** The voice-control channel's framing: every envelope travels as a 4-byte
    unsigned big-endian length followed by exactly that many payload bytes.
    The sender side is a pure encoding; the receiver side is a loop over a
    socket that hands out bytes in chunks of whatever size arrived. */
module Framing {
  import opened Mailbox

  type Byte = b: int | 0 <= b < 256

  /** One more than the largest length a 4-byte unsigned header can carry. */
  const HeaderLimit: nat := 0x1_0000_0000
  const HeaderSize: nat := 4
  /** The receiver never asks the socket for more than this many bytes at once. */
  const MaxChunk: nat := 4096

  function Min(a: nat, b: nat): nat {
    if a <= b then a else b
  }

  /** The 4-byte big-endian unsigned representation of `n`, most significant
      byte first. */
  function EncodeBE32(n: nat): (r: seq<Byte>)
    requires n < HeaderLimit
    ensures |r| == HeaderSize
  {
    [n / 0x100_0000, (n / 0x1_0000) % 0x100, (n / 0x100) % 0x100, n % 0x100]
  }

  function DecodeBE32(b: seq<Byte>): (n: nat)
    requires |b| == HeaderSize
    ensures n < HeaderLimit
  {
    (b[0] as int) * 0x100_0000 + (b[1] as int) * 0x1_0000 + (b[2] as int) * 0x100 + b[3]
  }

  lemma DecodeEncodeBE32(n: nat)
    requires n < HeaderLimit
    ensures DecodeBE32(EncodeBE32(n)) == n
  {
    var q1 := n / 0x100;
    var q2 := q1 / 0x100;
    var q3 := q2 / 0x100;
    assert n == q1 * 0x100 + n % 0x100;
    assert q1 == q2 * 0x100 + q1 % 0x100;
    assert q2 == q3 * 0x100 + q2 % 0x100;
    assert q2 == n / 0x1_0000;
    assert q3 == n / 0x100_0000;
  }

  /** At least one multiple of `d` lies between two distinct multiples. */
  lemma {:induction false} MultipleGap(k: nat, d: nat)
    requires k >= 1
    ensures k * d >= d
    decreases k
  {
    if k > 1 {
      MultipleGap(k - 1, d);
      assert k * d == (k - 1) * d + d;
    }
  }

  /** Euclidean division undoes `q * d + r` for a remainder below `d`. */
  lemma DivideSum(q: nat, r: nat, d: nat)
    requires 0 <= r < d
    ensures (q * d + r) / d == q && (q * d + r) % d == r
  {
    var n := q * d + r;
    var q', r' := n / d, n % d;
    assert n == q' * d + r' && 0 <= r' < d;
    assert (q - q') * d == q * d - q' * d && (q' - q) * d == q' * d - q * d;
    // a quotient off by one or more would put the remainders `d` apart
    if q > q' {
      MultipleGap(q - q', d);
    } else if q < q' {
      MultipleGap(q' - q, d);
    }
  }

  lemma EncodeDecodeBE32(b: seq<Byte>)
    requires |b| == HeaderSize
    ensures EncodeBE32(DecodeBE32(b)) == b
  {
    var n := DecodeBE32(b);
    var b0, b1, b2, b3: nat := b[0] as nat, b[1] as nat, b[2] as nat, b[3] as nat;
    var e := EncodeBE32(n);
    // byte 0: everything below it is less than 2^24
    DivideSum(b0, b1 * 0x1_0000 + b2 * 0x100 + b3, 0x100_0000);
    assert e[0] == b[0];
    // byte 1: the top two bytes, then the lower of them
    DivideSum(b0 * 0x100 + b1, b2 * 0x100 + b3, 0x1_0000);
    DivideSum(b0, b1, 0x100);
    assert e[1] == b[1];
    // byte 2: the top three bytes, then the lowest of them
    DivideSum(b0 * 0x1_0000 + b1 * 0x100 + b2, b3, 0x100);
    DivideSum(b0 * 0x100 + b1, b2, 0x100);
    assert e[2] == b[2];
    // byte 3: the remainder of the whole
    assert e[3] == b[3];
  }

  /** The bytes sent for one payload: length header, then the payload.
      Packing the length fails when it does not fit in 4 bytes. */
  function EncodeFrame(payload: seq<Byte>): (r: Option<seq<Byte>>)
    ensures r.Some? <==> |payload| < HeaderLimit
    ensures r.Some? ==> |r.value| == HeaderSize + |payload| && r.value[HeaderSize..] == payload
  {
    if |payload| < HeaderLimit then Some(EncodeBE32(|payload|) + payload) else None
  }

  /** What one attempt to read a frame produced. */
  datatype Reading =
    | Closed                        // the peer had closed: the header read returned nothing
    | BadHeader                     // fewer than 4 header bytes arrived: unpacking fails
    | Incomplete(got: seq<Byte>)    // the stream ended before the announced length
    | Complete(payload: seq<Byte>)  // exactly the announced number of bytes

  /** Frame parsing over a flat byte sequence whose first four bytes are the
      header: the reading and the bytes left for the next frame. */
  function ParseFrame(bytes: seq<Byte>): (r: (Reading, seq<Byte>))
    requires |bytes| >= HeaderSize
    ensures r.0.Complete? || r.0.Incomplete?
    ensures r.0.Complete? ==>
      |r.0.payload| == DecodeBE32(bytes[..HeaderSize]) && bytes == bytes[..HeaderSize] + r.0.payload + r.1
    ensures r.0.Incomplete? ==>
      |r.0.got| < DecodeBE32(bytes[..HeaderSize]) && bytes == bytes[..HeaderSize] + r.0.got && r.1 == []
  {
    var n := DecodeBE32(bytes[..HeaderSize]);
    var body := bytes[HeaderSize..];
    if n <= |body| then (Complete(body[..n]), body[n..]) else (Incomplete(body), [])
  }

  /** Round trip: the bytes of an encoded frame, followed by anything, parse
      back to exactly the payload, and the following bytes are left alone. */
  lemma ParseEncodedFrame(payload: seq<Byte>, next: seq<Byte>)
    requires |payload| < HeaderLimit
    ensures ParseFrame(EncodeFrame(payload).value + next) == (Complete(payload), next)
  {
    var bytes := EncodeFrame(payload).value + next;
    assert bytes[..HeaderSize] == EncodeBE32(|payload|);
    DecodeEncodeBE32(|payload|);
    assert bytes[HeaderSize..] == payload + next;
  }

  /** A frame cut short parses as incomplete and swallows the remaining bytes. */
  lemma ParseTruncatedFrame(payload: seq<Byte>, k: nat)
    requires |payload| < HeaderLimit && k < |payload|
    ensures ParseFrame(EncodeFrame(payload).value[..HeaderSize + k]) == (Incomplete(payload[..k]), [])
  {
    var bytes := EncodeFrame(payload).value[..HeaderSize + k];
    assert bytes[..HeaderSize] == EncodeBE32(|payload|);
    DecodeEncodeBE32(|payload|);
    assert bytes[HeaderSize..] == payload[..k];
  }

  // ---------------------------------------------------------------------
  // The receiving socket

  function Flatten(segments: seq<seq<Byte>>): seq<Byte> {
    if segments == [] then [] else segments[0] + Flatten(segments[1..])
  }

  /** The bytes a socket still has to deliver, grouped as they arrive: one
      receive call returns bytes from the first segment only. */
  datatype Stream = Stream(segments: seq<seq<Byte>>) {
    ghost predicate Valid() {
      forall i :: 0 <= i < |segments| ==> segments[i] != []
    }

    function Contents(): seq<Byte> {
      Flatten(segments)
    }
  }

  /** One receive call asking for at most `max` bytes: it returns what is
      available in the first arrived segment, up to `max`, and returns nothing
      only once the peer has closed and everything was read. */
  function Recv(s: Stream, max: nat): (r: (seq<Byte>, Stream))
    requires s.Valid() && max > 0
    ensures r.1.Valid()
    ensures |r.0| <= max
    ensures r.0 + r.1.Contents() == s.Contents()
    ensures r.0 == [] <==> s.Contents() == []
    ensures s.segments != [] ==> |r.0| == Min(max, |s.segments[0]|)
  {
    if s.segments == [] then ([], s)
    else
      var first := s.segments[0];
      if max < |first| then
        var rest := Stream([first[max..]] + s.segments[1..]);
        assert rest.Contents() == first[max..] + Flatten(s.segments[1..]);
        assert first == first[..max] + first[max..];
        (first[..max], rest)
      else
        (first, Stream(s.segments[1..]))
  }

  /** The inner loop of the voice handler: keeps receiving chunks of at most
      `MaxChunk` bytes, never more than are still missing, until `n` bytes are
      in or the peer has closed. It never consumes a byte past the frame. */
  method ReadExact(s: Stream, n: nat) returns (got: seq<Byte>, rest: Stream)
    requires s.Valid()
    ensures rest.Valid()
    ensures |got| == Min(n, |s.Contents()|)
    ensures got + rest.Contents() == s.Contents()
  {
    got, rest := [], s;
    while |got| < n
      invariant rest.Valid()
      invariant |got| <= n
      invariant got + rest.Contents() == s.Contents()
      decreases n - |got|
    {
      var remaining := n - |got|;
      var received := Recv(rest, Min(MaxChunk, remaining));
      var chunk := received.0;
      rest := received.1;
      if chunk == [] {
        assert rest.Contents() == [];
        break;
      }
      got := got + chunk;
    }
  }

  /** Reads one length-prefixed frame: the header with one receive call of
      4 bytes, then the payload with `ReadExact`. */
  method ReadFrame(s: Stream) returns (r: Reading, rest: Stream)
    requires s.Valid()
    ensures rest.Valid()
    ensures r.Closed? <==> s.Contents() == []
    ensures r.BadHeader? <==> s.segments != [] && |s.segments[0]| < HeaderSize
    ensures s.segments != [] && |s.segments[0]| >= HeaderSize ==>
      (r, rest.Contents()) == ParseFrame(s.Contents())
    ensures !r.Closed? ==> |rest.Contents()| < |s.Contents()|
  {
    var received := Recv(s, HeaderSize);
    var header := received.0;
    rest := received.1;
    if header == [] {
      return Closed, rest;
    }
    if |header| < HeaderSize {
      return BadHeader, rest;
    }
    assert s.Contents()[..HeaderSize] == header;
    var n := DecodeBE32(header);
    var body;
    body, rest := ReadExact(rest, n);
    var bytes := s.Contents();
    assert bytes[HeaderSize..] == body + rest.Contents();
    if |body| != n {
      r := Incomplete(body);
      assert rest.Contents() == [] && bytes[HeaderSize..] == body;
      assert ParseFrame(bytes) == (r, rest.Contents());
    } else {
      r := Complete(body);
      assert bytes[HeaderSize..][..n] == body;
      assert bytes[HeaderSize..][n..] == rest.Contents();
      assert ParseFrame(bytes) == (r, rest.Contents());
    }
  }
}
