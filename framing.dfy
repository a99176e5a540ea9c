/**
 * Delimited-message framing and token text of the CoreNLP protobuf helpers.
 *
 * A delimited message is a Base 128 varint (Protocol Buffers wire format:
 * seven value bits per byte, least significant group first, high bit set on
 * every byte but the last) giving the payload size, followed by the payload.
 * The protobuf parse of the payload is foreign; the model returns the bytes
 * that would be handed to it.
 */
module Framing {
  import opened Wrappers
  import opened Sequences

  newtype byte = b: int | 0 <= b < 256

  /** protobuf masks a decoded varint to 64 bits. */
  const TwoTo64: nat := 0x1_0000_0000_0000_0000

  /** Reading past the buffer (IndexError) or a varint longer than ten bytes. */
  datatype VarintError = Truncated | TooManyBytes

  function Pow2(k: nat): (r: nat)
    ensures r >= 1
  {
    if k == 0 then 1 else 2 * Pow2(k - 1)
  }

  lemma {:induction false} Pow2Add(a: nat, b: nat)
    ensures Pow2(a + b) == Pow2(a) * Pow2(b)
  {
    if b > 0 {
      Pow2Add(a, b - 1);
      assert Pow2(a + b) == 2 * Pow2(a + b - 1);
    }
  }

  /** The value of a run of varint bytes: the sum of (b_i & 0x7F) * 2^(7i). */
  function VarintValue(bs: seq<byte>): nat {
    if bs == [] then 0 else (bs[0] as int) % 128 + 128 * VarintValue(bs[1..])
  }

  /**
   * One step of protobuf's varint decoding loop: `acc` holds the groups read
   * so far, `shift` is the bit position of the next group. The loop's
   * `result |= (b & 0x7f) << shift` is an addition here, as the groups never
   * overlap. The 64-bit mask is applied by `DecodeVarint` once the loop ends.
   */
  function DecodeVarintFrom(buf: seq<byte>, pos: nat, shift: nat, acc: nat): Result<(nat, nat), VarintError>
    requires shift < 64
    decreases 64 - shift
  {
    if pos >= |buf| then Err(Truncated)
    else
      var b := buf[pos] as int;
      var acc' := acc + (b % 128) * Pow2(shift);
      if b < 128 then Ok((acc', pos + 1))
      else if shift + 7 >= 64 then Err(TooManyBytes)
      else DecodeVarintFrom(buf, pos + 1, shift + 7, acc')
  }

  /** protobuf's `_DecodeVarint(buf, pos)`: the value and the ABSOLUTE position after the varint. */
  function DecodeVarint(buf: seq<byte>, pos: nat): Result<(nat, nat), VarintError> {
    match DecodeVarintFrom(buf, pos, 0, 0)
    case Err(e) => Err(e)
    case Ok((v, next)) => Ok((v % TwoTo64, next))
  }

  /** Every byte of `buf[lo..hi]` has its continuation bit set. */
  ghost predicate Continued(buf: seq<byte>, lo: nat, hi: nat)
    requires lo <= hi <= |buf|
  {
    forall j :: lo <= j < hi ==> buf[j] >= 128
  }

  /** The groups of `bs` placed from bit `shift` upwards: what the decoding loop adds up. */
  function Groups(bs: seq<byte>, shift: nat): nat {
    if bs == [] then 0 else (bs[0] as int % 128) * Pow2(shift) + Groups(bs[1..], shift + 7)
  }

  lemma {:induction false} Distribute(low: int, p: int, v: int)
    ensures low * p + (p * 128) * v == p * (low + 128 * v)
  {
  }

  lemma {:induction false} GroupsValue(bs: seq<byte>, shift: nat)
    ensures Groups(bs, shift) == Pow2(shift) * VarintValue(bs)
  {
    if bs != [] {
      GroupsValue(bs[1..], shift + 7);
      Pow2Add(shift, 7);
      assert Pow2(7) == 128;
      var low := bs[0] as int % 128;
      var v := VarintValue(bs[1..]);
      var p := Pow2(shift);
      var q := Pow2(shift + 7);
      assert q == p * 128;
      assert Groups(bs, shift) == low * p + q * v;
      Distribute(low, p, v);
    }
  }

  lemma {:induction false} DecodeFromTerminated(buf: seq<byte>, pos: nat, k: nat, g: nat, acc: nat)
    requires g + k < 10
    requires pos + k < |buf| && Continued(buf, pos, pos + k) && buf[pos + k] < 128
    ensures DecodeVarintFrom(buf, pos, 7 * g, acc) == Ok((acc + Groups(buf[pos..pos + k + 1], 7 * g), pos + k + 1))
    decreases k
  {
    var bs := buf[pos..pos + k + 1];
    assert bs[0] == buf[pos];
    if k > 0 {
      assert Continued(buf, pos + 1, pos + 1 + (k - 1));
      DecodeFromTerminated(buf, pos + 1, k - 1, g + 1, acc + (buf[pos] as int % 128) * Pow2(7 * g));
      assert bs[1..] == buf[pos + 1..pos + 1 + (k - 1) + 1];
    } else {
      assert bs[1..] == [];
    }
  }

  /**
   * Decoding stops at the first byte whose high bit is clear: when that byte
   * lies within ten bytes of `pos`, the value is the sum of the seven-bit
   * groups up to and including it, masked to 64 bits, and decoding resumes
   * right after it.
   */
  lemma {:induction false} DecodeVarintTerminated(buf: seq<byte>, pos: nat, k: nat)
    requires k < 10 && pos + k < |buf|
    requires Continued(buf, pos, pos + k) && buf[pos + k] < 128
    ensures DecodeVarint(buf, pos) == Ok((VarintValue(buf[pos..pos + k + 1]) % TwoTo64, pos + k + 1))
  {
    DecodeFromTerminated(buf, pos, k, 0, 0);
    GroupsValue(buf[pos..pos + k + 1], 0);
  }

  lemma {:induction false} DecodeFromRunsOut(buf: seq<byte>, pos: nat, g: nat, acc: nat)
    requires pos <= |buf| && g + (|buf| - pos) < 10
    requires Continued(buf, pos, |buf|)
    ensures DecodeVarintFrom(buf, pos, 7 * g, acc) == Err(Truncated)
    decreases |buf| - pos
  {
    if pos < |buf| {
      DecodeFromRunsOut(buf, pos + 1, g + 1, acc + (buf[pos] as int % 128) * Pow2(7 * g));
    }
  }

  /** A buffer that ends inside the first ten varint bytes is an error (IndexError in the source). */
  lemma {:induction false} DecodeVarintTruncated(buf: seq<byte>, pos: nat)
    requires pos <= |buf| && |buf| - pos < 10 && Continued(buf, pos, |buf|)
    ensures DecodeVarint(buf, pos) == Err(Truncated)
  {
    DecodeFromRunsOut(buf, pos, 0, 0);
  }

  lemma {:induction false} DecodeFromTooLong(buf: seq<byte>, pos: nat, g: nat, acc: nat)
    requires g < 10 && pos + (10 - g) <= |buf|
    requires Continued(buf, pos, pos + (10 - g))
    ensures DecodeVarintFrom(buf, pos, 7 * g, acc) == Err(TooManyBytes)
    decreases 10 - g
  {
    if g < 9 {
      DecodeFromTooLong(buf, pos + 1, g + 1, acc + (buf[pos] as int % 128) * Pow2(7 * g));
    }
  }

  /** Ten continuation bytes in a row are rejected, whatever follows them. */
  lemma {:induction false} DecodeVarintTooLong(buf: seq<byte>, pos: nat)
    requires pos + 10 <= |buf| && Continued(buf, pos, pos + 10)
    ensures DecodeVarint(buf, pos) == Err(TooManyBytes)
  {
    DecodeFromTooLong(buf, pos, 0, 0);
  }

  /** The varint encoding of `n` (what Java's `writeDelimitedTo` writes before a message). */
  function EncodeVarint(n: nat): (r: seq<byte>)
  {
    if n < 128 then [n as byte]
    else [(n % 128 + 128) as byte] + EncodeVarint(n / 128)
  }

  lemma {:induction false} EncodeVarintShape(n: nat)
    ensures var r := EncodeVarint(n);
      |r| >= 1 && r[|r| - 1] < 128 && Continued(r, 0, |r| - 1) && VarintValue(r) == n
  {
    var r := EncodeVarint(n);
    if n >= 128 {
      EncodeVarintShape(n / 128);
      assert r[1..] == EncodeVarint(n / 128);
    }
  }

  function Pow128(k: nat): nat {
    if k == 0 then 1 else 128 * Pow128(k - 1)
  }

  /** A value below 128^k takes at most k bytes. */
  lemma {:induction false} EncodeVarintLength(n: nat, k: nat)
    requires n < Pow128(k)
    ensures |EncodeVarint(n)| <= if k == 0 then 1 else k
  {
    if n >= 128 {
      EncodeVarintLength(n / 128, k - 1);
    }
  }

  lemma {:induction false} TwoTo64BelowPow128()
    ensures TwoTo64 < Pow128(10)
  {
    assert Pow128(10) == 0x40_0000_0000_0000_0000;
  }

  lemma {:induction false} MaskSmall(v: nat)
    requires v < TwoTo64
    ensures v % TwoTo64 == v
  {
  }

  /** `h` is a complete varint of at most ten bytes whose value is `n`. */
  ghost predicate IsVarint(h: seq<byte>, n: nat) {
    1 <= |h| <= 10 && h[|h| - 1] < 128 && Continued(h, 0, |h| - 1) && VarintValue(h) == n
  }

  lemma {:induction false} EncodeVarintIsVarint(n: nat)
    requires n < TwoTo64
    ensures IsVarint(EncodeVarint(n), n)
  {
    EncodeVarintShape(n);
    TwoTo64BelowPow128();
    EncodeVarintLength(n, 10);
  }

  /** A complete varint decodes to its value wherever it sits in a buffer. */
  lemma {:induction false} DecodePlacedVarint(prefix: seq<byte>, h: seq<byte>, rest: seq<byte>, n: nat)
    requires IsVarint(h, n) && n < TwoTo64
    ensures DecodeVarint(prefix + h + rest, |prefix|) == Ok((n, |prefix| + |h|))
  {
    var buf := prefix + h + rest;
    var p := |prefix|;
    var k := |h| - 1;
    assert buf[p..p + k + 1] == h;
    assert Continued(buf, p, p + k) by {
      forall j | p <= j < p + k ensures buf[j] >= 128 {
        assert buf[j] == h[j - p];
      }
    }
    assert buf[p + k] == h[k];
    DecodeVarintTerminated(buf, p, k);
    MaskSmall(n);
  }

  /** Round trip: decoding an encoded value yields it and the position after the header. */
  lemma {:induction false} VarintRoundTrip(n: nat, prefix: seq<byte>, rest: seq<byte>)
    requires n < TwoTo64
    ensures DecodeVarint(prefix + EncodeVarint(n) + rest, |prefix|)
         == Ok((n, |prefix| + |EncodeVarint(n)|))
  {
    EncodedRoundTrip(n, EncodeVarint(n), prefix, rest);
  }

  lemma {:induction false} EncodedRoundTrip(n: nat, h: seq<byte>, prefix: seq<byte>, rest: seq<byte>)
    requires n < TwoTo64 && h == EncodeVarint(n)
    ensures DecodeVarint(prefix + h + rest, |prefix|) == Ok((n, |prefix| + |h|))
  {
    EncodeVarintIsVarint(n);
    DecodePlacedVarint(prefix, h, rest, n);
  }

  /** The header of a framed message decodes to the payload size, and the payload follows it. */
  lemma {:induction false} DelimitedHeader(prefix: seq<byte>, payload: seq<byte>, rest: seq<byte>)
    requires |payload| < TwoTo64
    ensures var buf := prefix + EncodeDelimited(payload) + rest;
      var at := |prefix| + |EncodeVarint(|payload|)|;
      && DecodeVarint(buf, |prefix|) == Ok((|payload|, at))
      && at + |payload| <= |buf|
      && buf[at..at + |payload|] == payload
  {
    EncodedHeader(prefix, EncodeVarint(|payload|), payload, rest);
  }

  lemma {:induction false} EncodedHeader(prefix: seq<byte>, h: seq<byte>, payload: seq<byte>, rest: seq<byte>)
    requires |payload| < TwoTo64 && h == EncodeVarint(|payload|)
    ensures var buf := prefix + (h + payload) + rest;
      var at := |prefix| + |h|;
      && DecodeVarint(buf, |prefix|) == Ok((|payload|, at))
      && at + |payload| <= |buf|
      && buf[at..at + |payload|] == payload
  {
    EncodeVarintIsVarint(|payload|);
    PlacedHeader(prefix, h, payload, rest, |payload|);
  }

  lemma {:induction false} PlacedHeader(prefix: seq<byte>, h: seq<byte>, payload: seq<byte>, rest: seq<byte>, n: nat)
    requires IsVarint(h, n) && n < TwoTo64
    ensures var buf := prefix + (h + payload) + rest;
      var at := |prefix| + |h|;
      && DecodeVarint(buf, |prefix|) == Ok((n, at))
      && at + |payload| <= |buf|
      && buf[at..at + |payload|] == payload
  {
    var buf := prefix + (h + payload) + rest;
    assert buf == prefix + h + (payload + rest);
    DecodePlacedVarint(prefix, h, payload + rest, n);
    var at := |prefix| + |h|;
    assert buf[at..at + |payload|] == payload;
  }

  /** What `parseFromDelimitedString` hands to the protobuf parser, and the count it returns. */
  datatype Delimited = Delimited(payload: seq<byte>, consumed: nat)

  /**
   * `parseFromDelimitedString(obj, buf, offset)` as written: `_DecodeVarint`
   * returns an absolute position, and the code adds `offset` to it again.
   */
  function ParseFromDelimitedString(buf: seq<byte>, offset: nat): Result<Delimited, VarintError> {
    match DecodeVarint(buf, offset)
    case Err(e) => Err(e)
    case Ok((size, pos)) => Ok(Delimited(Slice(buf, offset + pos, offset + pos + size), pos + size))
  }

  /** Java's `writeDelimitedTo`: the payload size as a varint, then the payload. */
  function EncodeDelimited(payload: seq<byte>): seq<byte> {
    EncodeVarint(|payload|) + payload
  }

  /**
   * From offset 0, the parser receives exactly the payload after the header
   * and the consumed count is the header length plus the payload size.
   */
  lemma {:induction false} ParseFromDelimitedRoundTrip(payload: seq<byte>, rest: seq<byte>)
    requires |payload| < TwoTo64
    ensures ParseFromDelimitedString(EncodeDelimited(payload) + rest, 0)
         == Ok(Delimited(payload, |EncodeVarint(|payload|)| + |payload|))
  {
    var h := EncodeVarint(|payload|);
    var buf := EncodeDelimited(payload) + rest;
    assert [] + (h + payload) + rest == buf;
    EncodedHeader([], h, payload, rest);
    assert DecodeVarint(buf, 0) == Ok((|payload|, |h|));
    assert Slice(buf, |h|, |h| + |payload|) == payload;
  }

  /**
   * A buffer holding fewer payload bytes than its header announces is not
   * rejected: slicing clamps, so the parser gets the short remainder and the
   * consumed count runs past the end of the buffer.
   */
  lemma {:induction false} ParseFromDelimitedShort(n: nat, payload: seq<byte>)
    requires |payload| < n < TwoTo64
    ensures ParseFromDelimitedString(EncodeVarint(n) + payload, 0)
         == Ok(Delimited(payload, |EncodeVarint(n)| + n))
    ensures |EncodeVarint(n)| + n > |EncodeVarint(n) + payload|
  {
    var h := EncodeVarint(n);
    EncodeVarintIsVarint(n);
    ShortPayload(h, payload, n);
  }

  lemma {:induction false} ShortPayload(h: seq<byte>, payload: seq<byte>, n: nat)
    requires IsVarint(h, n) && |payload| < n < TwoTo64
    ensures ParseFromDelimitedString(h + payload, 0) == Ok(Delimited(payload, |h| + n))
  {
    var buf := h + payload;
    assert buf == [] + h + payload;
    DecodePlacedVarint([], h, payload, n);
    assert DecodeVarint(buf, 0) == Ok((n, |h|));
    assert buf[|h|..] == payload;
    SliceClamps(buf, |h|, |h| + n);
  }

  /** At a nonzero offset the code reads the payload from the wrong place and over-counts. */
  lemma {:induction false} ParseFromDelimitedOffsetCountsTwice()
    ensures ParseFromDelimitedString([9, 2, 7, 8], 1) == Ok(Delimited([8], 4))
  {
    var buf: seq<byte> := [9, 2, 7, 8];
    DecodeVarintTerminated(buf, 1, 0);
    assert buf[1..2] == [2];
    assert Slice(buf, 3, 5) == [8];
  }

  /**
   * The evidently intended reading at any offset: slice from the absolute
   * position the decoder returns and count from `offset`.
   */
  function ParseDelimitedAt(buf: seq<byte>, offset: nat): Result<Delimited, VarintError> {
    match DecodeVarint(buf, offset)
    case Err(e) => Err(e)
    case Ok((size, pos)) =>
      Ok(Delimited(Slice(buf, pos, pos + size), if pos >= offset then pos - offset + size else size))
  }

  /** At any offset, the intended parse recovers the message framed there and its framed length. */
  lemma {:induction false} ParseDelimitedAtRoundTrip(prefix: seq<byte>, payload: seq<byte>, rest: seq<byte>)
    requires |payload| < TwoTo64
    ensures ParseDelimitedAt(prefix + EncodeDelimited(payload) + rest, |prefix|)
         == Ok(Delimited(payload, |EncodeDelimited(payload)|))
  {
    DelimitedHeader(prefix, payload, rest);
  }

  /** The two readings agree at offset 0. */
  lemma {:induction false} ParseAtZeroAgrees(buf: seq<byte>)
    ensures ParseDelimitedAt(buf, 0) == ParseFromDelimitedString(buf, 0)
  {
  }

  /** A token of a CoreNLP sentence: its text and the whitespace before it. */
  datatype Token = Token(word: string, before: string)

  /** Each token's `before` followed by its `word`, over all the tokens given. */
  function Glued(ts: seq<Token>): string {
    if ts == [] then "" else ts[0].before + ts[0].word + Glued(ts[1..])
  }

  /** The text of a sentence: the first word, then every later token with the space before it. */
  function SentenceText(ts: seq<Token>): string {
    if ts == [] then "" else ts[0].word + Glued(ts[1..])
  }

  lemma {:induction false} GluedSnoc(ts: seq<Token>, t: Token)
    ensures Glued(ts + [t]) == Glued(ts) + t.before + t.word
  {
    if ts == [] {
      assert [] + [t] == [t];
    } else {
      var u := ts + [t];
      assert u[0] == ts[0] && u[1..] == ts[1..] + [t];
      GluedSnoc(ts[1..], t);
      assert Glued(u) == ts[0].before + ts[0].word + Glued(ts[1..] + [t]);
    }
  }

  /** `to_text(sentence)`: the loop that rebuilds the sentence string from its tokens. */
  method ToText(tokens: seq<Token>) returns (text: string)
    ensures text == SentenceText(tokens)
  {
    text := "";
    var i := 0;
    while i < |tokens|
      invariant 0 <= i <= |tokens|
      invariant text == SentenceText(tokens[..i])
    {
      var tok := tokens[i];
      if i != 0 {
        text := text + tok.before;
      }
      text := text + tok.word;
      if i == 0 {
        assert tokens[..1] == [tok];
      } else {
        assert tokens[..i + 1][1..] == tokens[..i][1..] + [tok];
        GluedSnoc(tokens[..i][1..], tok);
      }
      i := i + 1;
    }
    assert tokens[..i] == tokens;
  }

  function WordLengths(ts: seq<Token>): nat {
    if ts == [] then 0 else |ts[0].word| + WordLengths(ts[1..])
  }

  function BeforeLengths(ts: seq<Token>): nat {
    if ts == [] then 0 else |ts[0].before| + BeforeLengths(ts[1..])
  }

  lemma {:induction false} GluedLength(ts: seq<Token>)
    ensures |Glued(ts)| == WordLengths(ts) + BeforeLengths(ts)
  {
    if ts != [] {
      GluedLength(ts[1..]);
    }
  }

  /** The text is as long as all the words plus the spaces before every token but the first. */
  lemma {:induction false} SentenceTextLength(ts: seq<Token>)
    ensures |SentenceText(ts)| == WordLengths(ts) + (if ts == [] then 0 else BeforeLengths(ts[1..]))
  {
    if ts != [] {
      GluedLength(ts[1..]);
    }
  }

  /** A sentence without tokens has the empty text, and the first token's `before` never shows. */
  lemma {:induction false} SentenceTextIgnoresFirstBefore(ts: seq<Token>, b: string)
    requires ts != []
    ensures SentenceText(ts[0 := ts[0].(before := b)]) == SentenceText(ts)
    ensures SentenceText([]) == ""
  {
    assert ts[0 := ts[0].(before := b)][1..] == ts[1..];
  }
}
