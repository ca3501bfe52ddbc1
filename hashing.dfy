/**
 * Subresource-integrity strings for source.json: `sha256-` followed by the
 * standard Base64 (RFC 4648, section 4) encoding of a SHA-256 digest.
 *
 * SHA-256 itself is a parameter (`digest`): the model proves what is built
 * around it (how the bytes reach it, how its output is encoded), not the
 * hash function. Downloads are a parameter too.
 */
module Hashing {
  import opened Wrappers
  import opened Errors

  type Byte = x: int | 0 <= x < 256

  /** The size of one `resp.read` in `sha256_from_url`: one MiB. */
  const ChunkSize: nat := 1024 * 1024

  const IntegrityPrefix: string := "sha256-"

  // ---------------------------------------------------------------------------
  // Byte streams
  // ---------------------------------------------------------------------------

  /** The bytes of a stream of chunks, in order. */
  function Flatten(chunks: seq<seq<Byte>>): (r: seq<Byte>)
    ensures |chunks| == 1 ==> r == chunks[0]
  {
    if |chunks| == 0 then [] else Flatten(chunks[..|chunks| - 1]) + chunks[|chunks| - 1]
  }

  lemma {:induction false} FlattenAppend(a: seq<seq<Byte>>, b: seq<seq<Byte>>)
    ensures Flatten(a + b) == Flatten(a) + Flatten(b)
    decreases |b|
  {
    if |b| == 0 {
      assert a + b == a;
    } else {
      var b' := b[..|b| - 1];
      assert (a + b)[..|a + b| - 1] == a + b';
      FlattenAppend(a, b');
    }
  }

  // ---------------------------------------------------------------------------
  // Base64 (RFC 4648, section 4), with `=` padding
  // ---------------------------------------------------------------------------

  /** The character of a 6-bit value in the Base64 alphabet `A-Z a-z 0-9 + /`. */
  function Base64Char(n: nat): (c: char)
    requires n < 64
    ensures c != '='
  {
    if n < 26 then ('A' as int + n) as char
    else if n < 52 then ('a' as int + n - 26) as char
    else if n < 62 then ('0' as int + n - 52) as char
    else if n == 62 then '+'
    else '/'
  }

  /** The 6-bit value of a Base64 alphabet character; `None` for any other character. */
  function Base64Value(c: char): (r: Option<nat>)
    ensures r.Some? ==> r.value < 64 && Base64Char(r.value) == c
  {
    if 'A' <= c <= 'Z' then Some(c as int - 'A' as int)
    else if 'a' <= c <= 'z' then Some(c as int - 'a' as int + 26)
    else if '0' <= c <= '9' then Some(c as int - '0' as int + 52)
    else if c == '+' then Some(62)
    else if c == '/' then Some(63)
    else None
  }

  lemma Base64CharValue(n: nat)
    requires n < 64
    ensures Base64Value(Base64Char(n)) == Some(n)
  {
  }

  predicate IsBase64Char(c: char) {
    Base64Value(c).Some?
  }

  /** Three bytes (or a short tail padded with zero bytes) as one 24-bit group. */
  function Pack(b0: Byte, b1: Byte, b2: Byte): (n: nat)
    ensures n < 0x100_0000
  {
    (b0 * 0x100 + b1) * 0x100 + b2
  }

  /** The four 6-bit values of a 24-bit group, most significant first. */
  function Sextets(n: nat): (r: seq<nat>)
    requires n < 0x100_0000
    ensures |r| == 4 && forall i :: 0 <= i < 4 ==> r[i] < 64
    ensures ((r[0] * 64 + r[1]) * 64 + r[2]) * 64 + r[3] == n
  {
    var q1 := n / 64;
    var q2 := q1 / 64;
    [q2 / 64, q2 % 64, q1 % 64, n % 64]
  }

  /** Four characters for a 24-bit group. */
  function Quad(n: nat): (r: string)
    requires n < 0x100_0000
    ensures |r| == 4 && forall i :: 0 <= i < 4 ==> r[i] != '='
  {
    var d := Sextets(n);
    [Base64Char(d[0]), Base64Char(d[1]), Base64Char(d[2]), Base64Char(d[3])]
  }

  /** `base64.b64encode`: three bytes become four characters; a short tail is padded with `=`. */
  function Base64Encode(bs: seq<Byte>): (r: string)
    ensures |r| == 4 * ((|bs| + 2) / 3)
    decreases |bs|
  {
    if |bs| == 0 then []
    else if |bs| == 1 then Quad(Pack(bs[0], 0, 0))[..2] + "=="
    else if |bs| == 2 then Quad(Pack(bs[0], bs[1], 0))[..3] + "="
    else
      EncodedLengthStep(|bs|);
      Quad(Pack(bs[0], bs[1], bs[2])) + Base64Encode(bs[3..])
  }

  /** Three more bytes, four more characters. */
  lemma EncodedLengthStep(n: nat)
    requires n >= 3
    ensures 4 * ((n + 2) / 3) == 4 + 4 * ((n - 3 + 2) / 3)
  {
    assert (n + 2) / 3 == (n - 3 + 2) / 3 + 1;
  }

  /** The 24-bit group of four characters, if all four are in the alphabet. */
  function QuadValue(s: string): (r: Option<nat>)
    requires |s| == 4
    ensures r.Some? ==> r.value < 0x100_0000
  {
    var v0 := Base64Value(s[0]);
    var v1 := Base64Value(s[1]);
    var v2 := Base64Value(s[2]);
    var v3 := Base64Value(s[3]);
    if v0.Some? && v1.Some? && v2.Some? && v3.Some? then
      Some(((v0.value * 64 + v1.value) * 64 + v2.value) * 64 + v3.value)
    else None
  }

  /** The three bytes of a 24-bit group. */
  function Unpack(n: nat): (r: seq<Byte>)
    requires n < 0x100_0000
    ensures |r| == 3
  {
    var q := n / 0x100;
    [q / 0x100, q % 0x100, n % 0x100]
  }

  /** Base64 decoding, the inverse of `Base64Encode`; `None` when the text is not a padded encoding. */
  function Base64Decode(s: string): (r: Option<seq<Byte>>)
    decreases |s|
  {
    if |s| == 0 then Some([])
    else if |s| < 4 then None
    else if |s| == 4 && s[2] == '=' && s[3] == '=' then
      match QuadValue(s[..2] + "AA")
      case None => None
      case Some(n) => Some(Unpack(n)[..1])
    else if |s| == 4 && s[3] == '=' then
      match QuadValue(s[..3] + "A")
      case None => None
      case Some(n) => Some(Unpack(n)[..2])
    else
      match QuadValue(s[..4])
      case None => None
      case Some(n) =>
        match Base64Decode(s[4..])
        case None => None
        case Some(rest) => Some(Unpack(n) + rest)
  }

  /** The four characters of a group give back the group. */
  lemma QuadRoundTrip(n: nat)
    requires n < 0x100_0000
    ensures QuadValue(Quad(n)) == Some(n)
  {
    var d := Sextets(n);
    Base64CharValue(d[0]);
    Base64CharValue(d[1]);
    Base64CharValue(d[2]);
    Base64CharValue(d[3]);
  }

  /** A group unpacks to the bytes it was packed from. */
  lemma UnpackPack(b0: Byte, b1: Byte, b2: Byte)
    ensures Unpack(Pack(b0, b1, b2)) == [b0, b1, b2]
  {
  }

  /** A group of one byte and padding ends in twelve zero bits: its last two characters are `A`s. */
  lemma QuadOfOne(b0: Byte)
    ensures Quad(Pack(b0, 0, 0))[..2] + "AA" == Quad(Pack(b0, 0, 0))
  {
    var n := Pack(b0, 0, 0);
    assert n == 4096 * (16 * b0);
    TwelveZeroBits(16 * b0);
    var q := Quad(n);
    assert q[2] == 'A' && q[3] == 'A';
    assert q[..2] + "AA" == q;
  }

  /** A group of two bytes and padding ends in six zero bits: its last character is an `A`. */
  lemma QuadOfTwo(b0: Byte, b1: Byte)
    ensures Quad(Pack(b0, b1, 0))[..3] + "A" == Quad(Pack(b0, b1, 0))
  {
    var n := Pack(b0, b1, 0);
    assert n == 64 * (4 * (b0 * 0x100 + b1));
    SixZeroBits(4 * (b0 * 0x100 + b1));
    var q := Quad(n);
    assert q[3] == 'A';
    assert q[..3] + "A" == q;
  }

  /** A multiple of 2^12 has two zero sextets at the end. */
  lemma TwelveZeroBits(k: nat)
    requires 4096 * k < 0x100_0000
    ensures Sextets(4096 * k)[2] == 0 && Sextets(4096 * k)[3] == 0
  {
    var n := 4096 * k;
    assert n / 64 == 64 * k && n % 64 == 0;
    assert (64 * k) % 64 == 0;
  }

  /** A multiple of 2^6 has a zero sextet at the end. */
  lemma SixZeroBits(k: nat)
    requires 64 * k < 0x100_0000
    ensures Sextets(64 * k)[3] == 0
  {
  }

  /** Decoding an encoding gives back the bytes. */
  lemma {:induction false} Base64RoundTrip(bs: seq<Byte>)
    ensures Base64Decode(Base64Encode(bs)) == Some(bs)
    decreases |bs|
  {
    if |bs| == 1 {
      assert bs == [bs[0]];
      RoundTripOne(bs[0]);
    } else if |bs| == 2 {
      assert bs == [bs[0], bs[1]];
      RoundTripTwo(bs[0], bs[1]);
    } else if |bs| >= 3 {
      assert [bs[0], bs[1], bs[2]] + bs[3..] == bs;
      Base64RoundTrip(bs[3..]);
      RoundTripGroup(bs[0], bs[1], bs[2], bs[3..]);
    }
  }

  /** One byte: two characters and `==`. */
  lemma RoundTripOne(b0: Byte)
    ensures Base64Decode(Base64Encode([b0])) == Some([b0])
  {
    var n := Pack(b0, 0, 0);
    var q := Quad(n);
    var e := q[..2] + "==";
    assert Base64Encode([b0]) == e;
    QuadOfOne(b0);
    assert e[..2] + "AA" == q;
    DecodeOnePadded(e);
    QuadRoundTrip(n);
    UnpackPack(b0, 0, 0);
    assert Unpack(n)[..1] == [b0];
  }

  /** Two bytes: three characters and `=`. */
  lemma RoundTripTwo(b0: Byte, b1: Byte)
    ensures Base64Decode(Base64Encode([b0, b1])) == Some([b0, b1])
  {
    var n := Pack(b0, b1, 0);
    var q := Quad(n);
    var e := q[..3] + "=";
    assert Base64Encode([b0, b1]) == e;
    QuadOfTwo(b0, b1);
    assert e[..3] + "A" == q;
    DecodeTwoPadded(e);
    QuadRoundTrip(n);
    UnpackPack(b0, b1, 0);
    assert Unpack(n)[..2] == [b0, b1];
  }

  /** Four characters ending in `==` carry one byte. */
  lemma DecodeOnePadded(e: string)
    requires |e| == 4 && e[2] == '=' && e[3] == '='
    ensures Base64Decode(e) == if QuadValue(e[..2] + "AA").Some? then Some(Unpack(QuadValue(e[..2] + "AA").value)[..1]) else None
  {
  }

  /** Four characters ending in a single `=` carry two bytes. */
  lemma DecodeTwoPadded(e: string)
    requires |e| == 4 && e[2] != '=' && e[3] == '='
    ensures Base64Decode(e) == if QuadValue(e[..3] + "A").Some? then Some(Unpack(QuadValue(e[..3] + "A").value)[..2]) else None
  {
  }

  /** A full group of three bytes in front of bytes that round-trip. */
  lemma RoundTripGroup(b0: Byte, b1: Byte, b2: Byte, rest: seq<Byte>)
    requires Base64Decode(Base64Encode(rest)) == Some(rest)
    ensures Base64Decode(Base64Encode([b0, b1, b2] + rest)) == Some([b0, b1, b2] + rest)
  {
    var bs := [b0, b1, b2] + rest;
    assert bs[3..] == rest;
    var n := Pack(b0, b1, b2);
    QuadRoundTrip(n);
    UnpackPack(b0, b1, b2);
    assert Base64Encode(bs) == Quad(n) + Base64Encode(rest);
    DecodeFront(Quad(n), Base64Encode(rest));
  }

  /** Four unpadded characters in front of a decodable text decode to their group, then the text. */
  lemma DecodeFront(q: string, rest: string)
    requires |q| == 4 && q[3] != '=' && QuadValue(q).Some? && Base64Decode(rest).Some?
    ensures Base64Decode(q + rest) == Some(Unpack(QuadValue(q).value) + Base64Decode(rest).value)
  {
    var s := q + rest;
    assert s[..4] == q && s[4..] == rest;
  }

  /** Different byte strings have different encodings. */
  lemma Base64Injective(a: seq<Byte>, b: seq<Byte>)
    requires Base64Encode(a) == Base64Encode(b)
    ensures a == b
  {
    Base64RoundTrip(a);
    Base64RoundTrip(b);
  }

  // ---------------------------------------------------------------------------
  // Integrity strings
  // ---------------------------------------------------------------------------

  /** A SHA-256 digest encodes to 44 characters. */
  lemma EncodedLength32(d: seq<Byte>)
    requires |d| == 32
    ensures |Base64Encode(d)| == 44
  {
    assert (|d| + 2) / 3 == 11;
  }

  /** The integrity string of some bytes under a digest function. */
  function Integrity(digest: seq<Byte> -> seq<Byte>, data: seq<Byte>): (r: string)
    ensures |r| >= |IntegrityPrefix| && r[..|IntegrityPrefix|] == IntegrityPrefix
    ensures Base64Decode(r[|IntegrityPrefix|..]) == Some(digest(data))
    ensures |digest(data)| == 32 ==> |r| == 51
  {
    Base64RoundTrip(digest(data));
    var e := Base64Encode(digest(data));
    var r := IntegrityPrefix + e;
    assert r[|IntegrityPrefix|..] == e;
    assert |digest(data)| == 32 ==> |e| == 44 by {
      if |digest(data)| == 32 {
        EncodedLength32(digest(data));
      }
    }
    r
  }

  /**
   * `_sha256_from_bytes`: feeds every chunk of the stream to the hash, then
   * encodes the digest. The hash state is the sequence of bytes fed so far.
   */
  method Sha256FromBytes(digest: seq<Byte> -> seq<Byte>, stream: seq<seq<Byte>>) returns (r: string)
    ensures r == Integrity(digest, Flatten(stream))
  {
    var fed: seq<Byte> := [];
    for i := 0 to |stream|
      invariant fed == Flatten(stream[..i])
    {
      assert stream[..i + 1][..i] == stream[..i];
      fed := fed + stream[i];
    }
    assert stream[..|stream|] == stream;
    r := IntegrityPrefix + Base64Encode(digest(fed));
  }

  /** How the stream is cut into chunks does not change the integrity string. */
  lemma IntegrityIgnoresChunking(digest: seq<Byte> -> seq<Byte>, a: seq<seq<Byte>>, b: seq<seq<Byte>>)
    requires Flatten(a) == Flatten(b)
    ensures Integrity(digest, Flatten(a)) == Integrity(digest, Flatten(b))
  {
  }

  /** Integrity strings of different digests differ. */
  lemma IntegrityDistinguishesDigests(digest: seq<Byte> -> seq<Byte>, x: seq<Byte>, y: seq<Byte>)
    requires digest(x) != digest(y)
    ensures Integrity(digest, x) != Integrity(digest, y)
  {
  }

  // ---------------------------------------------------------------------------
  // Downloads
  // ---------------------------------------------------------------------------

  /** `chunk_iter`: reads the body one MiB at a time until a read comes back empty. */
  method ReadChunks(body: seq<Byte>) returns (chunks: seq<seq<Byte>>)
    ensures Flatten(chunks) == body
    ensures forall i :: 0 <= i < |chunks| ==> 0 < |chunks[i]| <= ChunkSize
    ensures |chunks| == (|body| + ChunkSize - 1) / ChunkSize
  {
    chunks := [];
    var pos := 0;
    while pos < |body|
      invariant 0 <= pos <= |body|
      invariant Flatten(chunks) == body[..pos]
      invariant forall i :: 0 <= i < |chunks| ==> 0 < |chunks[i]| <= ChunkSize
      invariant pos == |body| || pos == |chunks| * ChunkSize
      invariant |chunks| == (pos + ChunkSize - 1) / ChunkSize
      decreases |body| - pos
    {
      var next := if |body| - pos < ChunkSize then |body| else pos + ChunkSize;
      var chunk := body[pos..next];
      FlattenAppend(chunks, [chunk]);
      assert body[..next] == body[..pos] + chunk;
      chunks := chunks + [chunk];
      pos := next;
    }
    assert body[..pos] == body;
  }

  /**
   * `sha256_from_url`: `fetch` stands for `urllib.request.urlopen` and the
   * response body it yields; a failed request is a `Failure`.
   */
  method Sha256FromUrl(digest: seq<Byte> -> seq<Byte>, fetch: string -> Result<seq<Byte>, Error>, url: string)
    returns (r: Result<string, Error>)
    ensures fetch(url).Failure? ==> r == Failure(fetch(url).error)
    ensures fetch(url).Success? ==> r == Success(Integrity(digest, fetch(url).value))
  {
    var body := fetch(url);
    if body.Failure? {
      return Failure(body.error);
    }
    var chunks := ReadChunks(body.value);
    var s := Sha256FromBytes(digest, chunks);
    return Success(s);
  }

  // ---------------------------------------------------------------------------
  // UTF-8 (RFC 3629, section 3)
  // ---------------------------------------------------------------------------

  /** The UTF-8 bytes of one Unicode scalar value. */
  function Utf8Char(c: char): (r: seq<Byte>)
    ensures 1 <= |r| <= 4
    ensures |r| == 1 <==> (c as int) < 0x80
  {
    var n := c as int;
    var q1 := n / 64;
    var q2 := q1 / 64;
    if n < 0x80 then [n]
    else if n < 0x800 then [0xC0 + q1, 0x80 + n % 64]
    else if n < 0x1_0000 then [0xE0 + q2, 0x80 + q1 % 64, 0x80 + n % 64]
    else [0xF0 + q2 / 64, 0x80 + q2 % 64, 0x80 + q1 % 64, 0x80 + n % 64]
  }

  /** `str.encode("utf-8")`. */
  function Utf8Encode(s: string): (r: seq<Byte>)
    ensures |r| >= |s|
  {
    if |s| == 0 then [] else Utf8Char(s[0]) + Utf8Encode(s[1..])
  }

  /** How many bytes the sequence starting with `b` takes. */
  function Utf8Width(b: Byte): nat {
    if b < 0x80 then 1 else if b < 0xE0 then 2 else if b < 0xF0 then 3 else 4
  }

  /** The six payload bits of a continuation byte. */
  function Low6(b: Byte): int {
    b - 0x80
  }

  /** The scalar value at the front of `bs`, for a well-formed encoding. */
  function Utf8Head(bs: seq<Byte>): (r: Option<char>)
    requires |bs| > 0 && Utf8Width(bs[0]) <= |bs|
  {
    var w := Utf8Width(bs[0]);
    var lead: int := bs[0];
    var n :=
      if w == 1 then lead
      else if w == 2 then (lead - 0xC0) * 64 + Low6(bs[1])
      else if w == 3 then ((lead - 0xE0) * 64 + Low6(bs[1])) * 64 + Low6(bs[2])
      else (((lead - 0xF0) * 64 + Low6(bs[1])) * 64 + Low6(bs[2])) * 64 + Low6(bs[3]);
    if 0 <= n < 0xD800 || 0xE000 <= n < 0x11_0000 then Some(n as char) else None
  }

  /** Decoding of UTF-8, the inverse of `Utf8Encode`; `None` when the bytes are not an encoding it produces. */
  function Utf8Decode(bs: seq<Byte>): (r: Option<string>)
    decreases |bs|
  {
    if |bs| == 0 then Some([])
    else if |bs| < Utf8Width(bs[0]) then None
    else
      match Utf8Head(bs)
      case None => None
      case Some(c) =>
        match Utf8Decode(bs[Utf8Width(bs[0])..])
        case None => None
        case Some(rest) => Some([c] + rest)
  }

  /** The bytes of one scalar value decode back to it. */
  lemma Utf8CharRoundTrip(c: char, rest: seq<Byte>)
    ensures var bs := Utf8Char(c) + rest;
      Utf8Width(bs[0]) == |Utf8Char(c)| && Utf8Head(bs) == Some(c)
  {
  }

  /** Decoding an encoding gives back the text. */
  lemma {:induction false} Utf8RoundTrip(s: string)
    ensures Utf8Decode(Utf8Encode(s)) == Some(s)
    decreases |s|
  {
    if |s| > 0 {
      var head := Utf8Char(s[0]);
      var bs := Utf8Encode(s);
      Utf8CharRoundTrip(s[0], Utf8Encode(s[1..]));
      assert bs[|head|..] == Utf8Encode(s[1..]);
      Utf8RoundTrip(s[1..]);
      assert [s[0]] + s[1..] == s;
    }
  }

  /** ASCII text is its own encoding. */
  lemma {:induction false} Utf8Ascii(s: string)
    requires forall i :: 0 <= i < |s| ==> (s[i] as int) < 0x80
    ensures |Utf8Encode(s)| == |s| && forall i :: 0 <= i < |s| ==> Utf8Encode(s)[i] == s[i] as int
    decreases |s|
  {
    if |s| > 0 {
      Utf8Ascii(s[1..]);
    }
  }

  /** `sha256_from_string`: the integrity string of the text's UTF-8 bytes, fed as one chunk. */
  method Sha256FromString(digest: seq<Byte> -> seq<Byte>, content: string) returns (r: string)
    ensures r == Integrity(digest, Utf8Encode(content))
  {
    r := Sha256FromBytes(digest, [Utf8Encode(content)]);
  }
}
