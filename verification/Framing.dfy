/** Length-prefixed frames: a 4-byte big-endian header, then the payload. */
module Framing {
  import opened Options

  type Octet = b: int | 0 <= b < 256

  const HEADER_SIZE := 4
  const LIMIT := 0x1_0000_0000

  /** struct.pack("!I", n), and its error for a length that does not fit. */
  function Header(n: nat): (h: Option<seq<Octet>>)
    ensures h.Some? <==> n < LIMIT
    ensures h.Some? ==> |h.value| == HEADER_SIZE
  {
    if n < LIMIT then Some([n / 0x1_000000, n / 0x1_0000 % 256, n / 256 % 256, n % 256]) else None
  }

  function DecodeHeader(h: seq<Octet>): (n: nat)
    requires |h| == HEADER_SIZE
    ensures n < LIMIT
  {
    ((h[0] as int * 256 + h[1]) * 256 + h[2]) * 256 + h[3]
  }

  function Encode(payload: seq<Octet>): Option<seq<Octet>> {
    if Header(|payload|).Some? then Some(Header(|payload|).value + payload) else None
  }

  /** A header is the length in four bytes, most significant first. */
  lemma HeaderIsBigEndian(n: nat)
    requires n < LIMIT
    ensures var h := Header(n).value; n == 0x1_000000 * (h[0] as int) + 0x1_0000 * (h[1] as int) + 0x100 * (h[2] as int) + h[3] as int
  {
    SplitByte(n);
    SplitByte(n / 256);
    SplitByte(n / 256 / 256);
    assert n / 256 / 256 == n / 0x1_0000 && n / 256 / 256 / 256 == n / 0x1_000000;
  }

  /** Headers and lengths below 2^32 correspond one to one. */
  lemma HeaderRoundTrip(n: nat, h: seq<Octet>)
    ensures n < LIMIT ==> DecodeHeader(Header(n).value) == n
    ensures |h| == HEADER_SIZE ==> Header(DecodeHeader(h)) == Some(h)
  {
    if n < LIMIT {
      SplitByte(n);
      SplitByte(n / 256);
      SplitByte(n / 256 / 256);
      assert n / 256 / 256 == n / 0x1_0000 && n / 256 / 256 / 256 == n / 0x1_000000;
    }
    if |h| == HEADER_SIZE {
      var a: int := h[0] as int * 256 + h[1];
      var b: int := a * 256 + h[2];
      var c: int := b * 256 + h[3];
      assert c / 256 == b && c % 256 == h[3];
      assert b / 256 == a && b % 256 == h[2];
      assert a / 256 == h[0] && a % 256 == h[1];
      assert c / 0x1_0000 == c / 256 / 256 && c / 0x1_000000 == c / 256 / 256 / 256;
      assert Header(c).value == h;
    }
  }

  lemma SplitByte(n: nat)
    ensures n / 256 * 256 + n % 256 == n
  {
  }

  // ---- Reading ----

  /** async_recv on the bytes received so far: a payload and the rest, or an incomplete read. */
  function Recv(bytes: seq<Octet>): Option<(seq<Octet>, seq<Octet>)> {
    if |bytes| < HEADER_SIZE then None
    else
      var n := DecodeHeader(bytes[..HEADER_SIZE]);
      if |bytes| < HEADER_SIZE + n then None
      else Some((bytes[HEADER_SIZE..HEADER_SIZE + n], bytes[HEADER_SIZE + n..]))
  }

  /** All complete frames, and the bytes of the one that is not. */
  function Parse(bytes: seq<Octet>): (seq<seq<Octet>>, seq<Octet>)
    decreases |bytes|
  {
    match Recv(bytes)
    case None => ([], bytes)
    case Some((payload, rest)) => var r := Parse(rest); ([payload] + r.0, r.1)
  }

  /** The bytes of a sequence of frames. */
  function Frames(payloads: seq<seq<Octet>>): seq<Octet>
    requires forall p :: p in payloads ==> |p| < LIMIT
  {
    if payloads == [] then [] else Encode(payloads[0]).value + Frames(payloads[1..])
  }

  lemma RecvFrame(payload: seq<Octet>, rest: seq<Octet>)
    requires |payload| < LIMIT
    ensures Recv(Encode(payload).value + rest) == Some((payload, rest))
  {
    var header := Header(|payload|).value;
    var bytes := Encode(payload).value + rest;
    HeaderRoundTrip(|payload|, header);
    assert bytes == header + (payload + rest);
    assert bytes[..HEADER_SIZE] == header;
    assert bytes[HEADER_SIZE..HEADER_SIZE + |payload|] == payload;
    assert bytes[HEADER_SIZE + |payload|..] == rest;
  }

  /** Any concatenation of frames, followed by the start of another, parses back to the same
      payloads, and leaves just that start: however the bytes were cut up on the way. */
  lemma {:induction false} ParseFrames(payloads: seq<seq<Octet>>, partial: seq<Octet>)
    requires forall p :: p in payloads ==> |p| < LIMIT
    requires Recv(partial).None?
    ensures Parse(Frames(payloads) + partial) == (payloads, partial)
  {
    hide *;
    FramesStep(payloads);
    if payloads == [] {
      assert [] + partial == partial;
      ParseNothing(partial);
    } else {
      var first, rest := payloads[0], payloads[1..];
      assert first in payloads && forall p :: p in rest ==> p in payloads;
      ParseFrames(rest, partial);
      var more := Frames(rest) + partial;
      assert (Encode(first).value + Frames(rest)) + partial == Encode(first).value + more;
      RecvFrame(first, more);
      ParseStep(Encode(first).value + more, first, more);
      assert [first] + rest == payloads;
    }
  }

  lemma FramesStep(payloads: seq<seq<Octet>>)
    requires forall p :: p in payloads ==> |p| < LIMIT
    ensures payloads == [] ==> Frames(payloads) == []
    ensures payloads != [] ==> Encode(payloads[0]).Some? && Frames(payloads) == Encode(payloads[0]).value + Frames(payloads[1..])
  {
    hide Header;
    if payloads != [] {
      assert payloads[0] in payloads;
    }
  }

  lemma ParseNothing(partial: seq<Octet>)
    requires Recv(partial).None?
    ensures Parse(partial) == ([], partial)
  {
  }

  lemma ParseStep(bytes: seq<Octet>, payload: seq<Octet>, rest: seq<Octet>)
    requires Recv(bytes) == Some((payload, rest))
    ensures Parse(bytes) == ([payload] + Parse(rest).0, Parse(rest).1)
  {
    hide Recv;
  }

  /** A frame that was cut off is never taken for a whole one. */
  lemma CutFrame(payload: seq<Octet>, n: nat)
    requires |payload| < LIMIT && n < HEADER_SIZE + |payload|
    ensures Recv(Encode(payload).value[..n]).None?
  {
    var bytes := Encode(payload).value;
    if n >= HEADER_SIZE {
      HeaderRoundTrip(|payload|, []);
      assert bytes[..n][..HEADER_SIZE] == Header(|payload|).value;
    }
  }

  /** Different payload sequences have different bytes. */
  lemma FramesInjective(a: seq<seq<Octet>>, b: seq<seq<Octet>>)
    requires forall p :: p in a ==> |p| < LIMIT
    requires forall p :: p in b ==> |p| < LIMIT
    requires Frames(a) == Frames(b)
    ensures a == b
  {
    ParseFrames(a, []);
    ParseFrames(b, []);
    assert Frames(a) + [] == Frames(a) && Frames(b) + [] == Frames(b);
  }
}
