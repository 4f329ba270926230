/** How event-stream frames reach an HTTP client: chunked transfer coding, or a reader over the frame channel. */
module Frames {
  import opened Words

  type Bytes = seq<u8>

  const CRLF: Bytes := [13, 10]

  // ---------- Encoding ----------

  function Digit(d: nat): (c: u8)
    requires d < 16
  {
    if d < 10 then 48 + d else 87 + d
  }

  /** Lower-case hexadecimal without leading zeros. */
  function Hex(n: nat): (s: Bytes)
    ensures s != []
  {
    if n < 16 then [Digit(n)] else Hex(n / 16) + [Digit(n % 16)]
  }

  function Chunk(frame: Bytes): Bytes {
    Hex(|frame|) + CRLF + frame + CRLF
  }

  /** The body: one chunk per frame, then the last chunk and an empty trailer. */
  function Encode(frames: seq<Bytes>): Bytes {
    if frames == [] then [48] + CRLF + CRLF else Chunk(frames[0]) + Encode(frames[1..])
  }

  method WriteBody(frames: seq<Bytes>) returns (body: Bytes)
    ensures body == Encode(frames)
  {
    hide Chunk;
    body := [];
    for i := 0 to |frames|
      invariant body + Encode(frames[i..]) == Encode(frames)
    {
      assert frames[i..][1..] == frames[i + 1..];
      Associate(body, Chunk(frames[i]), Encode(frames[i + 1..]));
      body := body + Chunk(frames[i]);
    }
    assert frames[|frames|..] == [];
    body := body + ([48] + CRLF + CRLF);
  }

  // ---------- Decoding: section 7.1 of RFC 9112, for bodies without chunk extensions and trailer fields ----------

  predicate IsHex(c: u8) {
    48 <= c <= 57 || 65 <= c <= 70 || 97 <= c <= 102
  }

  function HexValue(c: u8): nat
    requires IsHex(c)
  {
    if c <= 57 then c - 48 else if c <= 70 then c - 55 else c - 87
  }

  /** How many hexadecimal digits b begins with. */
  function HexRun(b: Bytes): (n: nat)
    ensures n <= |b| && forall i :: 0 <= i < n ==> IsHex(b[i])
    ensures n < |b| ==> !IsHex(b[n])
  {
    if b == [] || !IsHex(b[0]) then 0
    else
      var n := 1 + HexRun(b[1..]);
      assert forall i :: 1 <= i < n ==> b[i] == b[1..][i - 1];
      n
  }

  function Number(digits: Bytes): nat
    requires forall i :: 0 <= i < |digits| ==> IsHex(digits[i])
  {
    if digits == [] then 0
    else 16 * Number(digits[..|digits| - 1]) + HexValue(digits[|digits| - 1])
  }

  predicate StartsWithCrlf(b: Bytes) {
    |b| >= 2 && b[0] == 13 && b[1] == 10
  }

  /** The chunk size on the first line, and what follows the line. */
  function SizeLine(b: Bytes): (r: Option<(nat, Bytes)>)
    ensures r.Some? ==> |r.value.1| < |b|
  {
    var n := HexRun(b);
    if n == 0 || !StartsWithCrlf(b[n..]) then None else Some((Number(b[..n]), b[n + 2..]))
  }

  /** The chunks of a body, and what follows the body. */
  function Decode(b: Bytes): Option<(seq<Bytes>, Bytes)>
    decreases |b|
  {
    var (size, rest) :- SizeLine(b);
    if size == 0 then
      if StartsWithCrlf(rest) then Some(([], rest[2..])) else None
    else if |rest| < size || !StartsWithCrlf(rest[size..]) then None
    else
      var (frames, after) :- Decode(rest[size + 2..]);
      Some(([rest[..size]] + frames, after))
  }

  // ---------- Round trip ----------

  const LOWER: Bytes := [48, 49, 50, 51, 52, 53, 54, 55, 56, 57, 97, 98, 99, 100, 101, 102]   // "0123456789abcdef"
  const UPPER: Bytes := [48, 49, 50, 51, 52, 53, 54, 55, 56, 57, 65, 66, 67, 68, 69, 70]      // "0123456789ABCDEF"

  /** The reader takes both cases, the writer writes the lower one. */
  lemma {:induction false} DigitsAre(c: u8, v: nat)
    ensures IsHex(c) <==> c in LOWER || c in UPPER
    ensures v < 16 ==> IsHex(LOWER[v]) && HexValue(LOWER[v]) == v && IsHex(UPPER[v]) && HexValue(UPPER[v]) == v
    ensures v < 16 ==> Hex(v) == [LOWER[v]]
  {
    if IsHex(c) {
      assert c in LOWER || c in UPPER by {
        assert c <= 57 ==> LOWER[c - 48] == c;
        assert 65 <= c <= 70 ==> UPPER[c - 55] == c;
        assert 97 <= c ==> LOWER[c - 87] == c;
      }
    }
  }

  lemma {:induction false} HexDigits(n: nat)
    ensures forall i :: 0 <= i < |Hex(n)| ==> IsHex(Hex(n)[i])
    ensures Number(Hex(n)) == n
  {
    if n >= 16 {
      HexDigits(n / 16);
      var s := Hex(n);
      assert s[..|s| - 1] == Hex(n / 16) && s[|s| - 1] == Digit(n % 16);
    } else {
      assert [Digit(n)][..0] == [];
    }
  }

  lemma {:induction false} RunOfDigits(digits: Bytes, rest: Bytes)
    requires forall i :: 0 <= i < |digits| ==> IsHex(digits[i])
    requires rest != [] ==> !IsHex(rest[0])
    ensures HexRun(digits + rest) == |digits|
  {
    var b := digits + rest;
    assert forall i :: 0 <= i < |digits| ==> b[i] == digits[i];
    assert rest != [] ==> b[|digits|] == rest[0];
  }

  lemma {:induction false} SizeLineOfHex(n: nat, rest: Bytes)
    ensures SizeLine(Hex(n) + CRLF + rest) == Some((n, rest))
  {
    hide Hex, HexRun, Number;
    var digits, line := Hex(n), CRLF + rest;
    HexDigits(n);
    RunOfDigits(digits, line);
    var b := Hex(n) + CRLF + rest;
    assert b == digits + line;
    assert b[..|digits|] == digits && b[|digits|..] == line && b[|digits| + 2..] == rest;
  }

  lemma {:induction false} DecodeChunk(frame: Bytes, rest: Bytes)
    requires frame != []
    ensures Decode(Chunk(frame) + rest) ==
      match Decode(rest)
      case None => None
      case Some((frames, after)) => Some(([frame] + frames, after))
  {
    hide Hex, SizeLine;
    var n := |frame|;
    var data := frame + CRLF + rest;
    var b := Chunk(frame) + rest;
    assert b == Hex(n) + CRLF + data;
    SizeLineOfHex(n, data);
    assert data[..n] == frame && data[n..] == CRLF + rest && data[n + 2..] == rest;
  }

  lemma {:induction false} DecodeEmptyChunk(rest: Bytes)
    ensures Decode(Chunk([]) + rest) == Some(([], rest))
  {
    hide Hex, SizeLine;
    var data := CRLF + rest;
    assert Chunk([]) + rest == Hex(0) + CRLF + data;
    SizeLineOfHex(0, data);
    assert data[2..] == rest;
  }

  lemma {:induction false} DecodeEnd()
    ensures Decode(Encode([])) == Some(([], []))
  {
    hide Decode, SizeLine;
    assert Hex(0) == [48];
    assert Encode([]) == Chunk([]) + [];
    DecodeEmptyChunk([]);
  }

  predicate NoneEmpty(frames: seq<Bytes>) {
    forall i :: 0 <= i < |frames| ==> frames[i] != []
  }

  /** The frames before the first empty one. */
  function UpToEmpty(frames: seq<Bytes>): (r: seq<Bytes>)
    ensures r <= frames && (r == frames <==> NoneEmpty(frames))
  {
    if frames == [] || frames[0] == [] then []
    else
      var r := UpToEmpty(frames[1..]);
      assert forall i :: 1 <= i < |frames| ==> frames[i] == frames[1..][i - 1];
      assert r != frames[1..] ==> |r| < |frames[1..]|;
      [frames[0]] + r
  }

  /** What a client decodes from any sequence of frames: an empty frame would read as the end of the body. */
  lemma {:induction false} DecodeOfEncode(frames: seq<Bytes>)
    ensures Decode(Encode(frames)).Some? && Decode(Encode(frames)).value.0 == UpToEmpty(frames)
    ensures NoneEmpty(frames) ==> Decode(Encode(frames)).value.1 == []
  {
    hide Decode, Chunk;
    if frames == [] {
      DecodeEnd();
    } else if frames[0] == [] {
      DecodeEmptyChunk(Encode(frames[1..]));
    } else {
      DecodeOfEncode(frames[1..]);
      DecodeChunk(frames[0], Encode(frames[1..]));
    }
  }

  /** The client gets exactly the frames if and only if none of them is empty. */
  lemma {:induction false} RoundTripIff(frames: seq<Bytes>)
    ensures Decode(Encode(frames)) == Some((frames, [])) <==> NoneEmpty(frames)
  {
    hide Decode, Encode;
    DecodeOfEncode(frames);
  }

  // ---------- ChannelReader ----------

  function Concat(frames: seq<Bytes>): Bytes {
    if frames == [] then [] else frames[0] + Concat(frames[1..])
  }

  /** queue holds the frames the channel will still deliver before it closes. */
  class ChannelReader {
    var queue: seq<Bytes>
    var current: Bytes
    var position: nat
    var closed: bool

    ghost predicate Valid()
      reads this
    {
      position <= |current| && (closed ==> queue == [])
    }

    ghost function Remaining(): Bytes
      requires Valid()
      reads this
    {
      current[position..] + Concat(queue)
    }

    constructor (frames: seq<Bytes>)
      ensures Valid() && Remaining() == Concat(frames)
    {
      queue, current, position, closed := frames, [], 0, false;
    }

    /** A read into a buffer of size bytes.  It takes the next bytes of the stream, at least one unless the buffer is
        empty or the stream has ended. */
    method Read(size: nat) returns (out: Bytes)
      requires Valid()
      modifies this
      ensures Valid() && |out| <= size
      ensures out + Remaining() == old(Remaining())
      ensures out == [] <==> size == 0 || old(Remaining()) == []
    {
      while true
        invariant Valid() && Remaining() == old(Remaining())
        decreases |queue|, !closed
      {
        var n := if |current| - position < size then |current| - position else size;
        if n != 0 || size == 0 {
          out := current[position..position + n];
          assert out + current[position + n..] == current[position..];
          position := position + n;
          return;
        }
        if closed {
          return [];
        }
        if queue != [] {
          current, position, queue := queue[0], 0, queue[1..];
        } else {
          closed := true;
        }
      }
    }
  }

  /** How many of the read sizes are not zero. */
  function Useful(sizes: seq<nat>): nat {
    if sizes == [] then 0 else Useful(sizes[..|sizes| - 1]) + if sizes[|sizes| - 1] > 0 then 1 else 0
  }

  /** Reads of any sizes, zero included: what was read and what is left are the concatenation of the frames, and as
      many non-empty reads as there are bytes leave nothing. */
  method ReadSizes(frames: seq<Bytes>, sizes: seq<nat>) returns (all: Bytes, reader: ChannelReader)
    ensures reader.Valid() && all + reader.Remaining() == Concat(frames)
    ensures Useful(sizes) >= |Concat(frames)| ==> all == Concat(frames)
  {
    reader := new ChannelReader(frames);
    all := [];
    for k := 0 to |sizes|
      invariant reader.Valid() && all + reader.Remaining() == Concat(frames)
      invariant |all| >= Useful(sizes[..k]) || reader.Remaining() == []
    {
      var part := reader.Read(sizes[k]);
      Associate(all, part, reader.Remaining());
      assert sizes[..k + 1][..k] == sizes[..k];
      all := all + part;
    }
    assert sizes[..|sizes|] == sizes;
  }
}
