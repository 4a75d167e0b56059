/** What a reader of a QR symbol does with its codewords: the counterpart of
    smurfs/src/main/resources/static/lib/qrcode/qrcode.js, sections 7.4 to 7.6 of ISO/IEC 18004:2015. */
module QrReader {
  import opened Counting
  import opened ReedSolomon

  /** A data item: its mode, the bytes it writes, and how many bits its length field has. */
  datatype Segment = Segment(mode: nat, bytes: seq<nat>, lengthBits: nat)

  // ---------- from codewords to blocks ----------

  /** Reads codewords into blocks of the given lengths, one for each block in turn as long as it has room. */
  function Deal(lens: seq<nat>, max: nat, i: nat, r: nat, s: Poly, blocks: seq<Poly>): seq<Poly>
    requires |blocks| == |lens|
    decreases if i < max then max - i else 0, if r < |lens| then |lens| - r else 0
  {
    if i >= max then blocks
    else if r >= |lens| then Deal(lens, max, i + 1, 0, s, blocks)
    else if i < lens[r] && s != [] then Deal(lens, max, i, r + 1, s[1..], blocks[r := blocks[r] + [s[0]]])
    else Deal(lens, max, i, r + 1, s, blocks)
  }

  function MaxOf(lens: seq<nat>): nat {
    if lens == [] then 0
    else if MaxOf(lens[1..]) < lens[0] then lens[0] else MaxOf(lens[1..])
  }

  function Joined(blocks: seq<Poly>): Poly { if blocks == [] then [] else blocks[0] + Joined(blocks[1..]) }

  /** The data codewords in their order. */
  function Received(lens: seq<nat>, v: Poly): Poly { Joined(Deal(lens, MaxOf(lens), 0, 0, v, seq(|lens|, _ => []))) }

  // ---------- from bytes to bits ----------

  /** (b >>> 7 - k) & 1 == 1. */
  function BitFromTop(b: bv8, k: nat): bool
    requires k < 8
  {
    (b >> (7 - k)) & 1 == 1
  }

  /** The bits of the codewords, the highest of each first. */
  function MessageBits(p: Poly): (bits: seq<bool>)
    ensures |bits| == 8 * |p|
  {
    seq(8 * |p|, i requires 0 <= i < 8 * |p| => BitFromTop(V(p[i / 8]), i % 8))
  }

  /** The number with these bits, the highest first. */
  function BitsValue(bits: seq<bool>): nat {
    if bits == [] then 0 else 2 * BitsValue(bits[..|bits| - 1]) + if bits[|bits| - 1] then 1 else 0
  }

  // ---------- from bits to segments ----------

  function ReadBytes(bits: seq<bool>, n: nat): (bytes: seq<nat>)
    requires 8 * n <= |bits|
    ensures |bytes| == n
  {
    seq(n, k requires 0 <= k < n => BitsValue(bits[8 * k..8 * k + 8]))
  }

  /** Four bits of mode, the number of bytes, the bytes; ends at mode 0 or with too few bits. */
  function ReadSegments(bits: seq<bool>, lengthBits: nat -> nat): seq<Segment>
    decreases |bits|, 0
  {
    if |bits| < 4 || BitsValue(bits[..4]) == 0 then []
    else ReadRest(BitsValue(bits[..4]), bits[4..], lengthBits)
  }

  function ReadRest(mode: nat, bits: seq<bool>, lengthBits: nat -> nat): seq<Segment>
    decreases |bits|, 1
  {
    var n := lengthBits(mode);
    if |bits| < n then []
    else if |bits| - n < 8 * BitsValue(bits[..n]) then []
    else
      var count := BitsValue(bits[..n]);
      [Segment(mode, ReadBytes(bits[n..], count), n)] + ReadSegments(bits[n + 8 * count..], lengthBits)
  }

  /** What such a reader can tell apart: a mode of four bits that is not 0, bytes, and a count that fits. */
  ghost predicate Readable(list: seq<Segment>, lengthBits: nat -> nat) {
    forall k :: 0 <= k < |list| ==> ReadableOne(list[k], lengthBits)
  }

  ghost predicate ReadableOne(s: Segment, lengthBits: nat -> nat) {
    && 0 < s.mode < 16 && s.lengthBits == lengthBits(s.mode) && |s.bytes| < Pow2(s.lengthBits)
    && forall k :: 0 <= k < |s.bytes| ==> s.bytes[k] < 256
  }

  function MessageLength(list: seq<Segment>): nat {
    if list == [] then 0 else 4 + list[0].lengthBits + 8 * |list[0].bytes| + MessageLength(list[1..])
  }

  /** The first byte of padding: behind the message, its terminator of four bits and zeros up to a byte. */
  function PadStart(len: nat, bytes: nat): nat { if bytes < (len + 11) / 8 then bytes else (len + 11) / 8 }

  /** Zeros up to the padding, then bytes 11101100 and 00010001 in turn. */
  ghost predicate Padded(bits: seq<bool>, len: nat, bytes: nat) {
    && |bits| == 8 * bytes
    && (forall i :: len <= i < 8 * PadStart(len, bytes) ==> !bits[i])
    && (forall k :: PadStart(len, bytes) <= k < bytes ==>
          BitsValue(bits[8 * k..8 * k + 8]) == if (k - PadStart(len, bytes)) % 2 == 0 then 236 else 17)
  }
}
