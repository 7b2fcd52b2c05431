// The length-prefixed framing of unary gRPC bodies (Length-Prefixed-Message, section "Requests" of the gRPC over
// HTTP/2 protocol), with the 32-bit address arithmetic of wasm32.
module GrpcFrame {
  import opened Common

  datatype Error = ShortHeader | Compressed | LengthExceedsBody

  const WORD: nat := 0x1_0000_0000

  /** The `k` low bytes of a number, most significant first. */
  function BigEndian(n: nat, k: nat): (bytes: seq<Byte>)
    ensures |bytes| == k
  {
    if k == 0 then [] else BigEndian(n / 256, k - 1) + [n % 256]
  }

  function FromBigEndian(bytes: seq<Byte>): nat {
    if bytes == [] then 0 else FromBigEndian(bytes[..|bytes| - 1]) * 256 + bytes[|bytes| - 1]
  }

  /** `body.get(from..to)`. */
  function Slice(body: seq<Byte>, from: nat, to: nat): Result<seq<Byte>, Error> {
    if from <= to <= |body| then Ok(body[from..to]) else Err(LengthExceedsBody)
  }

  /** `unframe`; `5 + len` wraps as it does in a 32-bit release build. */
  function Unframe(body: seq<Byte>): Result<seq<Byte>, Error> {
    if body == [] then Ok(body)
    else if |body| < 5 then Err(ShortHeader)
    else if body[0] != 0 then Err(Compressed)
    else Slice(body, 5, (5 + FromBigEndian(body[1..5])) % WORD)
  }

  /** The prefix of a message, whose length is truncated to 32 bits. */
  function Header(message: seq<Byte>): seq<Byte> {
    [0] + BigEndian(|message| % WORD, 4)
  }

  /** `frame`: an uncompressed frame whose header holds the length modulo 2^32, which `unframe` takes apart again
      exactly when the message ends below 2^32. */
  method Frame(message: seq<Byte>) returns (out: seq<Byte>)
    ensures out == Header(message) + message
    ensures out[0] == 0 && FromBigEndian(out[1..5]) == |message| % WORD && out[5..] == message
    ensures Unframe(out) == Ok(message) <==> |message| + 5 < WORD
  {
    out := [];
    out := out + [0];
    out := out + BigEndian(|message| % WORD, 4);
    out := out + message;
    HeaderReads(message);
    UnframeInvertsFrame(message);
  }

  lemma HeaderReads(message: seq<Byte>)
    ensures FromBigEndian((Header(message) + message)[1..5]) == |message| % WORD
  {
    WordIsFourBytes();
    BytesOfNumber(|message| % WORD, 4);
    assert (Header(message) + message)[1..5] == BigEndian(|message| % WORD, 4);
  }

  // --- byte order ------------------------------------------------------------------

  function Limit(k: nat): nat {
    if k == 0 then 1 else 256 * Limit(k - 1)
  }

  lemma {:induction false} BytesOfNumber(n: nat, k: nat)
    requires n < Limit(k)
    ensures FromBigEndian(BigEndian(n, k)) == n
  {
    if k > 0 {
      BytesOfNumber(n / 256, k - 1);
      var bytes := BigEndian(n, k);
      assert bytes[..k - 1] == BigEndian(n / 256, k - 1);
    }
  }

  lemma {:induction false} NumberOfBytes(bytes: seq<Byte>)
    ensures FromBigEndian(bytes) < Limit(|bytes|)
    ensures BigEndian(FromBigEndian(bytes), |bytes|) == bytes
  {
    if bytes != [] {
      NumberOfBytes(bytes[..|bytes| - 1]);
      assert bytes == bytes[..|bytes| - 1] + [bytes[|bytes| - 1]];
    }
  }

  /** Four bytes are read most significant first. */
  lemma FourBytesAre(a: Byte, b: Byte, c: Byte, d: Byte)
    ensures FromBigEndian([a, b, c, d]) == a * 16777216 + b * 65536 + c * 256 + d
  {
    OneMoreByte([], a);
    OneMoreByte([a], b);
    OneMoreByte([a, b], c);
    OneMoreByte([a, b, c], d);
    assert [] + [a] == [a] && [a] + [b] == [a, b] && [a, b] + [c] == [a, b, c] && [a, b, c] + [d] == [a, b, c, d];
  }

  lemma OneMoreByte(bytes: seq<Byte>, last: Byte)
    ensures FromBigEndian(bytes + [last]) == FromBigEndian(bytes) * 256 + last
  {
    assert (bytes + [last])[..|bytes|] == bytes;
  }

  lemma WordIsFourBytes()
    ensures Limit(4) == WORD
  {
    assert Limit(2) == 65536;
  }

  // --- framing -----------------------------------------------------------------------

  /** The end of the slice, as computed: past the header when it does not wrap, inside the header when it does. */
  lemma EndWraps(len: nat)
    requires len < WORD
    ensures (5 + len) % WORD == if len + 5 < WORD then len + 5 else len + 5 - WORD
  {
  }

  /** `unframe` of an uncompressed body: the bytes its header names, unless they are not all there or the end of
      them wraps. */
  lemma UnframeByLength(body: seq<Byte>)
    requires |body| >= 5 && body[0] == 0
    ensures var len := FromBigEndian(body[1..5]);
      Unframe(body) == if len + 5 < WORD && len + 5 <= |body| then Ok(body[5..len + 5]) else Err(LengthExceedsBody)
  {
    NumberOfBytes(body[1..5]);
    WordIsFourBytes();
    EndWraps(FromBigEndian(body[1..5]));
  }

  /** The header names a length exactly when it is the header of messages of that length. */
  lemma HeaderNamesTheLength(body: seq<Byte>, message: seq<Byte>)
    requires |body| >= 5 && body[0] == 0 && |message| < WORD
    ensures |message| == FromBigEndian(body[1..5]) <==> body[..5] == Header(message)
  {
    WordIsFourBytes();
    var length := body[1..5];
    NumberOfBytes(length);
    BytesOfNumber(|message|, 4);
    HeaderParts(body);
    if body[..5] == Header(message) {
      assert length == body[..5][1..] == Header(message)[1..] == BigEndian(|message|, 4);
    }
  }

  lemma HeaderParts(body: seq<Byte>)
    requires |body| >= 5
    ensures body[..5] == [body[0]] + body[1..5] && body[..5][1..] == body[1..5]
  {
  }

  /** A frame comes apart into its message exactly when the message fits the address space behind its header, which
      every message that can exist beside its frame in 32-bit memory does. */
  lemma UnframeInvertsFrame(message: seq<Byte>)
    ensures Unframe(Header(message) + message) == Ok(message) <==> |message| + 5 < WORD
  {
    var body := Header(message) + message;
    UnframeByLength(body);
    if |message| < WORD {
      assert body[..5] == Header(message) && body[5..|message| + 5] == message;
      HeaderNamesTheLength(body, message);
    }
  }

  /** What is accepted: nothing at all, or an uncompressed header followed by at least as many bytes as it names, of
      which exactly those are the message; a length that wraps is refused. */
  lemma UnframeAcceptsExactly(body: seq<Byte>, message: seq<Byte>)
    ensures Unframe(body) == Ok(message) <==>
      || (body == [] && message == [])
      || (|body| >= 5 && |message| + 5 < WORD && |message| + 5 <= |body|
          && body[..5] == Header(message) && body[5..|message| + 5] == message)
  {
    if |body| >= 5 && body[0] == 0 {
      UnframeByLength(body);
      if |message| < WORD {
        HeaderNamesTheLength(body, message);
      }
    } else if |body| >= 5 {
      assert body[..5][0] == body[0];
    }
  }
}
