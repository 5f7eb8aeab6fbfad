/**
 The four-stage value pipeline of the FPGA offload: decode the length header, adapt the
 payload to the value size, filter and checksum it, and frame it as a blob fragment.
 */
module FpgaPipeline {
  import opened Common

  type Byte = b: int | 0 <= b < 256

  /** Stage latencies in milliseconds. */
  const InputDecodeLatency: real := 5.0
  const DynamicAdaptLatency: real := 4.0
  const DataComputeLatency: real := 8.0
  const OutputEncodeLatency: real := 5.0

  /** Values shorter than this (header included) are small and padded. */
  const SmallValueThreshold: nat := 1024
  /** Large values are processed in chunks of this size. */
  const ChunkSize: nat := 4096
  const BlobIdWidth: nat := 16
  const ChecksumWidth: nat := 8
  /** Byte length of the header in front of the fragment data. */
  const FrameHeaderSize: nat := 28
  /** The exclusive upper bound of an unsigned 32-bit integer. */
  const U32Limit: nat := 0x1_0000_0000

  function Zeros(n: nat): (z: seq<Byte>)
    ensures |z| == n && forall i :: 0 <= i < n ==> z[i] == 0
  {
    seq(n, _ => 0)
  }

  // ---------------------------------------------------------------------------
  // Big-endian unsigned 32-bit integers

  /** The four big-endian bytes of `n`. */
  function PackU32(n: nat): (b: seq<Byte>)
    requires n < U32Limit
    ensures |b| == 4
    ensures ((b[0] as int * 256 + b[1]) * 256 + b[2]) * 256 + b[3] == n
  {
    var n1 := n / 256;
    var n2 := n1 / 256;
    assert n == n1 * 256 + n % 256;
    assert n1 == n2 * 256 + n1 % 256;
    assert n2 == (n2 / 256) * 256 + n2 % 256;
    [n2 / 256, n2 % 256, n1 % 256, n % 256]
  }

  /** The number four big-endian bytes stand for. */
  function UnpackU32(b: seq<Byte>): (n: nat)
    requires |b| == 4
    ensures n < U32Limit
  {
    ((b[0] as int * 256 + b[1]) * 256 + b[2]) * 256 + b[3]
  }

  lemma UnpackPack(n: nat)
    requires n < U32Limit
    ensures UnpackU32(PackU32(n)) == n
  {
    var n1 := n / 256;
    var n2 := n1 / 256;
    assert n == n1 * 256 + n % 256;
    assert n1 == n2 * 256 + n1 % 256;
    assert n2 == (n2 / 256) * 256 + n2 % 256;
  }

  lemma PackUnpack(b: seq<Byte>)
    requires |b| == 4
    ensures PackU32(UnpackU32(b)) == b
  {
    var n := UnpackU32(b);
    var n2: int := b[0] as int * 256 + b[1];
    var n1: int := n2 * 256 + b[2];
    assert n == n1 * 256 + b[3];
    assert n / 256 == n1 && n % 256 == b[3];
    assert n1 / 256 == n2 && n1 % 256 == b[2];
    assert n2 / 256 == b[0] && n2 % 256 == b[1];
  }

  // ---------------------------------------------------------------------------
  // Stage 1: input decode

  datatype Decoded = Decoded(length: nat, data: seq<Byte>)

  datatype PipelineError =
    | MissingLengthHeader
    | LengthOverflow

  /**
   Reads the big-endian length header in the first four bytes; the rest is the data. The
   header is not checked against the data length.
   */
  function InputDecode(value: seq<Byte>): (r: Result<Decoded, PipelineError>)
    ensures r.Failure? <==> |value| < 4
    ensures r.Failure? ==> r.error == MissingLengthHeader
    ensures r.Success? ==> r.value.length < U32Limit && value == PackU32(r.value.length) + r.value.data
  {
    if |value| < 4 then Failure(MissingLengthHeader)
    else
      var d := Decoded(UnpackU32(value[..4]), value[4..]);
      PackUnpack(value[..4]);
      assert value == value[..4] + value[4..];
      Success(d)
  }

  // ---------------------------------------------------------------------------
  // Stage 2: dynamic adaptation

  /** Consecutive slices of `data` of length `size`, the last one possibly shorter. */
  function Chunks(data: seq<Byte>, size: nat): (cs: seq<seq<Byte>>)
    requires size > 0
    ensures forall k :: 0 <= k < |cs| ==> 0 < |cs[k]| <= size
    ensures forall k :: 0 <= k < |cs| - 1 ==> |cs[k]| == size
    decreases |data|
  {
    if |data| == 0 then []
    else if |data| <= size then [data]
    else [data[..size]] + Chunks(data[size..], size)
  }

  /** `b"".join`. */
  function Join(cs: seq<seq<Byte>>): seq<Byte>
  {
    if |cs| == 0 then [] else cs[0] + Join(cs[1..])
  }

  /** Joining the chunks gives back the data. */
  lemma {:induction false} JoinChunks(data: seq<Byte>, size: nat)
    requires size > 0
    ensures Join(Chunks(data, size)) == data
    decreases |data|
  {
    if |data| > size {
      JoinChunks(data[size..], size);
      var cs := Chunks(data, size);
      assert cs[1..] == Chunks(data[size..], size);
      assert data == data[..size] + data[size..];
    }
  }

  /**
   Small values (header included) are padded with zero bytes by the distance of the value
   size to 1 KiB; large ones are split into 4 KiB chunks and joined again.
   */
  function DynamicAdapt(decoded: Decoded, valueSize: nat): (adapted: seq<Byte>)
    ensures valueSize < SmallValueThreshold ==>
      adapted == decoded.data + Zeros(SmallValueThreshold - valueSize)
    ensures valueSize >= SmallValueThreshold ==> adapted == decoded.data
  {
    if valueSize < SmallValueThreshold then
      decoded.data + Zeros(SmallValueThreshold - valueSize)
    else
      JoinChunks(decoded.data, ChunkSize);
      Join(Chunks(decoded.data, ChunkSize))
  }

  /** The padding targets the value size, header included, so a padded payload is 1020 bytes long, never 1024. */
  lemma SmallPayloadIs1020Bytes(value: seq<Byte>)
    requires 4 <= |value| < SmallValueThreshold
    ensures InputDecode(value).Success?
    ensures |DynamicAdapt(InputDecode(value).value, |value|)| == SmallValueThreshold - 4
  {
  }

  // ---------------------------------------------------------------------------
  // Stage 3: data compute

  /** Drops the trailing zero bytes (`bytes.rstrip(b"\x00")`). */
  function RStripZeros(b: seq<Byte>): (r: seq<Byte>)
    ensures |r| <= |b| && r == b[..|r|]
    ensures forall i :: |r| <= i < |b| ==> b[i] == 0
    ensures |r| == 0 || r[|r| - 1] != 0
  {
    if |b| == 0 || b[|b| - 1] != 0 then b
    else RStripZeros(b[..|b| - 1])
  }

  /** A payload extended by zero bytes strips to the same bytes as the payload itself. */
  lemma {:induction false} RStripIgnoresTrailingZeros(b: seq<Byte>, n: nat)
    ensures RStripZeros(b + Zeros(n)) == RStripZeros(b)
    decreases n
  {
    if n > 0 {
      assert (b + Zeros(n))[|b| + n - 1] == 0;
      assert (b + Zeros(n))[..|b| + n - 1] == b + Zeros(n - 1);
      RStripIgnoresTrailingZeros(b, n - 1);
    } else {
      assert b + Zeros(0) == b;
    }
  }

  /**
   Filters the adapted payload (strips trailing zero bytes, but only from a payload of
   exactly 1 KiB) and checksums the result with `checksum`.
   */
  function DataCompute(adapted: seq<Byte>, checksum: seq<Byte> -> string): (r: (seq<Byte>, string))
    ensures |adapted| == SmallValueThreshold ==> r.0 == RStripZeros(adapted)
    ensures |adapted| != SmallValueThreshold ==> r.0 == adapted
    ensures r.1 == checksum(r.0)
  {
    var valid := if |adapted| == SmallValueThreshold then RStripZeros(adapted) else adapted;
    (valid, checksum(valid))
  }

  // ---------------------------------------------------------------------------
  // Stage 4: output encode

  /** UTF-8 encoding of a string of Unicode scalar values. */
  function Utf8(s: string): (b: seq<Byte>)
    ensures |s| <= |b| <= 4 * |s|
    ensures |b| == |s| <==> forall i :: 0 <= i < |s| ==> s[i] as int < 0x80
  {
    if |s| == 0 then []
    else
      var c := s[0] as int;
      var head: seq<Byte> :=
        if c < 0x80 then [c]
        else if c < 0x800 then [0xC0 + c / 0x40, 0x80 + c % 0x40]
        else if c < 0x1_0000 then [0xE0 + c / 0x1000, 0x80 + c / 0x40 % 0x40, 0x80 + c % 0x40]
        else [0xF0 + c / 0x4_0000, 0x80 + c / 0x1000 % 0x40, 0x80 + c / 0x40 % 0x40, 0x80 + c % 0x40];
      head + Utf8(s[1..])
  }

  /** An ASCII string (such as a hexadecimal checksum) encodes to its code points, one byte each. */
  lemma {:induction false} Utf8OfAscii(s: string)
    requires forall i :: 0 <= i < |s| ==> s[i] as int < 0x80
    ensures |Utf8(s)| == |s|
    ensures forall i :: 0 <= i < |s| ==> Utf8(s)[i] == s[i] as int
  {
    if |s| > 0 {
      Utf8OfAscii(s[1..]);
    }
  }

  /** `b.ljust(n, b"\x00")[:n]`: the first `n` bytes of `b`, zero-padded to exactly `n`. */
  function FitTo(b: seq<Byte>, n: nat): (r: seq<Byte>)
    ensures |r| == n
    ensures forall i :: 0 <= i < n && i < |b| ==> r[i] == b[i]
    ensures forall i :: |b| <= i < n ==> r[i] == 0
  {
    if |b| >= n then b[..n] else b + Zeros(n - |b|)
  }

  /**
   Frames the payload as a blob fragment: 16 bytes of blob id and 8 bytes of checksum
   (UTF-8, truncated or zero-padded), the big-endian payload length and the payload. A
   payload too long for the 32-bit length field fails.
   */
  function OutputEncode(computed: seq<Byte>, blobId: string, checksum: string): (r: Result<seq<Byte>, PipelineError>)
    ensures r.Failure? <==> |computed| >= U32Limit
    ensures r.Failure? ==> r.error == LengthOverflow
    ensures r.Success? ==>
      && |r.value| == FrameHeaderSize + |computed|
      && r.value[..BlobIdWidth] == FitTo(Utf8(blobId), BlobIdWidth)
      && r.value[BlobIdWidth..BlobIdWidth + ChecksumWidth] == FitTo(Utf8(checksum), ChecksumWidth)
      && UnpackU32(r.value[24..FrameHeaderSize]) == |computed|
      && r.value[FrameHeaderSize..] == computed
  {
    if |computed| >= U32Limit then Failure(LengthOverflow)
    else
      var header := FitTo(Utf8(blobId), BlobIdWidth) + FitTo(Utf8(checksum), ChecksumWidth);
      var encoded := header + PackU32(|computed|) + computed;
      assert encoded[24..FrameHeaderSize] == PackU32(|computed|);
      UnpackPack(|computed|);
      Success(encoded)
  }

  /** Decoding a fragment from byte 24 on gives back the payload and its length. */
  lemma FrameRoundTrip(computed: seq<Byte>, blobId: string, checksum: string)
    requires |computed| < U32Limit
    ensures OutputEncode(computed, blobId, checksum).Success?
    ensures InputDecode(OutputEncode(computed, blobId, checksum).value[24..]) ==
      Success(Decoded(|computed|, computed))
  {
    var e := OutputEncode(computed, blobId, checksum).value;
    var tail := e[24..];
    assert tail[..4] == e[24..FrameHeaderSize];
    assert tail[4..] == e[FrameHeaderSize..];
  }

  // ---------------------------------------------------------------------------
  // The whole pipeline

  /** Sum of the four stage latencies. */
  const TotalLatency: real := InputDecodeLatency + DynamicAdaptLatency + DataComputeLatency + OutputEncodeLatency

  /** The payload the pipeline frames for `value`: decoded, adapted and filtered. */
  function Payload(value: seq<Byte>, checksum: seq<Byte> -> string): seq<Byte>
    requires |value| >= 4
  {
    DataCompute(DynamicAdapt(InputDecode(value).value, |value|), checksum).0
  }

  /**
   Runs the four stages on `value` and returns the fragment with the total latency. It
   fails when the length header is missing, or when the payload overflows the length field.
   */
  function ProcessValue(value: seq<Byte>, blobId: string, checksum: seq<Byte> -> string)
    : (r: Result<(seq<Byte>, real), PipelineError>)
    ensures |value| < 4 ==> r == Failure(MissingLengthHeader)
    ensures 4 <= |value| < U32Limit ==> r.Success?
    ensures r.Success? ==>
      && r.value.1 == 22.0
      && |r.value.0| == FrameHeaderSize + |Payload(value, checksum)|
      && r.value.0[..BlobIdWidth] == FitTo(Utf8(blobId), BlobIdWidth)
      && r.value.0[FrameHeaderSize..] == Payload(value, checksum)
      && r.value.0[BlobIdWidth..BlobIdWidth + ChecksumWidth] == FitTo(Utf8(checksum(Payload(value, checksum))), ChecksumWidth)
  {
    match InputDecode(value)
    case Failure(e) => Failure(e)
    case Success(decoded) =>
      var adapted := DynamicAdapt(decoded, |value|);
      var (computed, sum) := DataCompute(adapted, checksum);
      assert |value| < U32Limit ==> |computed| < U32Limit;
      match OutputEncode(computed, blobId, sum)
      case Failure(e) => Failure(e)
      case Success(encoded) => Success((encoded, TotalLatency))
  }

  /** A small value keeps its padding: the payload is the data followed by zeros, 1020 bytes in all. */
  lemma SmallValueKeepsPadding(value: seq<Byte>, checksum: seq<Byte> -> string)
    requires 4 <= |value| < SmallValueThreshold
    ensures Payload(value, checksum) == value[4..] + Zeros(SmallValueThreshold - |value|)
    ensures |Payload(value, checksum)| == SmallValueThreshold - 4
  {
  }

  /** Only a 1028-byte value yields a 1 KiB payload, and only its trailing zero bytes are dropped. */
  lemma OnlyKiBPayloadIsStripped(value: seq<Byte>, checksum: seq<Byte> -> string)
    requires |value| >= 4
    ensures |value| == SmallValueThreshold + 4 ==> Payload(value, checksum) == RStripZeros(value[4..])
    ensures |value| != SmallValueThreshold + 4 ==>
      Payload(value, checksum) ==
        (if |value| < SmallValueThreshold then value[4..] + Zeros(SmallValueThreshold - |value|) else value[4..])
  {
  }

  /** Whatever the value, its fragment decodes from byte 24 on to the payload and its length. */
  lemma ProcessedFragmentDecodes(value: seq<Byte>, blobId: string, checksum: seq<Byte> -> string)
    requires 4 <= |value| < U32Limit
    ensures ProcessValue(value, blobId, checksum).Success?
    ensures InputDecode(ProcessValue(value, blobId, checksum).value.0[24..]) ==
      Success(Decoded(|Payload(value, checksum)|, Payload(value, checksum)))
  {
    var p := Payload(value, checksum);
    FrameRoundTrip(p, blobId, checksum(p));
  }
}
