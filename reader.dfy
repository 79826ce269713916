/** Field decoding: the `Reader` getters of src/main.rs over a bounded view
    of a byte source (positioned_io's `Slice`).

    A view is a pair (offset, optional size) over a source byte sequence; the
    bytes a read may see are `Window(src, view)`.  Every getter decodes
    little-endian and fails with `UnexpectedEof` when the field does not lie
    entirely inside the view.
 */
module Reader {
  import opened Fallible

  type uint8 = x: int | 0 <= x < 256

  const TWO_TO_16: nat := 0x1_0000
  const TWO_TO_32: nat := 0x1_0000_0000
  const TWO_TO_48: nat := 0x1_0000_0000_0000
  const TWO_TO_64: nat := 0x1_0000_0000_0000_0000

  /** 256^n: one more than the largest value `n` bytes can hold. */
  function Pow256(n: nat): (r: nat)
    ensures r >= 1
  {
    if n == 0 then 1 else 256 * Pow256(n - 1)
  }

  /** The unsigned value of `bs`, least significant byte first. */
  function LittleEndian(bs: seq<uint8>): (r: nat)
    ensures r < Pow256(|bs|)
  {
    if bs == [] then 0 else bs[0] + 256 * LittleEndian(bs[1..])
  }

  /** The `width` bytes that store `x`, least significant byte first. */
  function ToLittleEndian(x: nat, width: nat): (bs: seq<uint8>)
    requires x < Pow256(width)
    ensures |bs| == width
  {
    if width == 0 then [] else [x % 256] + ToLittleEndian(x / 256, width - 1)
  }

  /** Encoding and then decoding a value gives it back. */
  lemma {:induction false} DecodeEncode(x: nat, width: nat)
    requires x < Pow256(width)
    ensures LittleEndian(ToLittleEndian(x, width)) == x
  {
    if width > 0 {
      DecodeEncode(x / 256, width - 1);
      assert ToLittleEndian(x, width)[1..] == ToLittleEndian(x / 256, width - 1);
    }
  }

  /** Decoding and then re-encoding at the same width gives the bytes back. */
  lemma {:induction false} EncodeDecode(bs: seq<uint8>)
    ensures ToLittleEndian(LittleEndian(bs), |bs|) == bs
  {
    if bs != [] {
      EncodeDecode(bs[1..]);
      var x := LittleEndian(bs);
      assert x % 256 == bs[0] && x / 256 == LittleEndian(bs[1..]);
    }
  }

  /** A positioned_io `Slice`: a view that starts `offset` bytes into its
      source and, when `size` is present, ends at most `size` bytes later. */
  datatype Slice = Slice(offset: nat, size: Option<nat>)

  /** The first `k` bytes of the view lie inside the source and inside the
      view's declared size. */
  predicate Fits(srcLen: nat, sl: Slice, k: nat) {
    sl.offset + k <= srcLen && (sl.size.Some? ==> k <= sl.size.value)
  }

  /** The bytes a read through the view can reach: the part of
      `src[sl.offset..]` that lies within the declared size. */
  function Window(src: seq<uint8>, sl: Slice): (w: seq<uint8>)
    ensures |w| <= |src|
  {
    if sl.offset >= |src| then []
    else match sl.size
      case None => src[sl.offset..]
      case Some(n) => if sl.offset + n <= |src| then src[sl.offset..sl.offset + n] else src[sl.offset..]
  }

  /** The view holds exactly the longest run of bytes from `sl.offset` on
      that fits both in the source and in the declared size. */
  lemma WindowContents(src: seq<uint8>, sl: Slice)
    ensures var w := Window(src, sl);
            && (w == [] || sl.offset + |w| <= |src|)
            && (forall k: nat :: 0 < k ==> (Fits(|src|, sl, k) <==> k <= |w|))
            && (forall i :: 0 <= i < |w| ==> w[i] == src[sl.offset + i])
  {
  }

  /** A little-endian unsigned integer of `width` bytes at `offset`. */
  function ReadUint(s: seq<uint8>, offset: nat, width: nat): (r: Result<nat>)
    ensures r.Ok? <==> offset + width <= |s|
    ensures r.Ok? ==> r.value < Pow256(width)
    ensures r.Err? ==> r.error == UnexpectedEof(offset, width)
  {
    if offset + width <= |s| then Ok(LittleEndian(s[offset..offset + width]))
    else Err(UnexpectedEof(offset, width))
  }

  /** Reading back a field that holds the encoding of `x` yields `x`. */
  lemma ReadEncoded(s: seq<uint8>, offset: nat, width: nat, x: nat)
    requires x < Pow256(width) && offset + width <= |s|
    requires s[offset..offset + width] == ToLittleEndian(x, width)
    ensures ReadUint(s, offset, width) == Ok(x)
  {
    DecodeEncode(x, width);
  }

  /** A read at position `p` of a view is the read at `offset + p` of its
      source when the field fits in the view, and an end-of-view error
      otherwise. */
  lemma ReadThroughWindow(src: seq<uint8>, sl: Slice, p: nat, width: nat)
    requires width > 0
    ensures ReadUint(Window(src, sl), p, width) ==
            if Fits(|src|, sl, p + width) then ReadUint(src, sl.offset + p, width)
            else Err(UnexpectedEof(p, width))
  {
    var w := Window(src, sl);
    WindowContents(src, sl);
    if Fits(|src|, sl, p + width) {
      assert w[p..p + width] == src[sl.offset + p..sl.offset + p + width];
    }
  }

  /** `Reader::u8`. */
  function U8(s: seq<uint8>, offset: nat): (r: Result<nat>)
    ensures r.Ok? <==> offset < |s|
    ensures r.Ok? ==> r.value == s[offset]
    ensures r.Err? ==> r.error == UnexpectedEof(offset, 1)
  {
    ReadUint(s, offset, 1)
  }

  /** `Reader::u16` (little-endian). */
  function U16(s: seq<uint8>, offset: nat): (r: Result<nat>)
    ensures r.Ok? <==> offset + 2 <= |s|
    ensures r.Ok? ==> r.value < TWO_TO_16
    ensures r.Err? ==> r.error == UnexpectedEof(offset, 2)
  {
    ReadUint(s, offset, 2)
  }

  /** A u16 is its first byte plus 256 times its second. */
  lemma U16Bytes(s: seq<uint8>, offset: nat)
    requires offset + 2 <= |s|
    ensures U16(s, offset).value == s[offset] as int + 256 * (s[offset + 1] as int)
  {
    var bs := s[offset..offset + 2];
    assert LittleEndian(bs[2..]) == 0;
    assert LittleEndian(bs[1..]) == bs[1] + 256 * LittleEndian(bs[2..]);
  }

  /** `Reader::u32` (little-endian). */
  function U32(s: seq<uint8>, offset: nat): (r: Result<nat>)
    ensures r.Ok? <==> offset + 4 <= |s|
    ensures r.Ok? ==> r.value < TWO_TO_32
    ensures r.Err? ==> r.error == UnexpectedEof(offset, 4)
  {
    ReadUint(s, offset, 4)
  }

  /** A u32 weighs its four bytes by 1, 2^8, 2^16 and 2^24. */
  lemma U32Bytes(s: seq<uint8>, offset: nat)
    requires offset + 4 <= |s|
    ensures U32(s, offset).value == s[offset] as int + 0x100 * (s[offset + 1] as int)
                                    + 0x1_0000 * (s[offset + 2] as int) + 0x100_0000 * (s[offset + 3] as int)
  {
    var bs := s[offset..offset + 4];
    assert LittleEndian(bs[4..]) == 0;
    assert LittleEndian(bs[3..]) == bs[3] + 256 * LittleEndian(bs[4..]);
    assert LittleEndian(bs[2..]) == bs[2] + 256 * LittleEndian(bs[3..]);
    assert LittleEndian(bs[1..]) == bs[1] + 256 * LittleEndian(bs[2..]);
  }

  /** `Reader::u64_lohi`: a 64-bit value whose low and high 32-bit halves
      sit at two possibly distant offsets; the low half is read first. */
  function U64LoHi(s: seq<uint8>, lo: nat, hi: nat): (r: Result<nat>)
    ensures r.Ok? <==> lo + 4 <= |s| && hi + 4 <= |s|
    ensures r.Ok? ==> r.value < TWO_TO_64
    ensures r.Ok? ==> r.value % TWO_TO_32 == U32(s, lo).value && r.value / TWO_TO_32 == U32(s, hi).value
    ensures r.Err? ==> r.error == UnexpectedEof(if lo + 4 <= |s| then hi else lo, 4)
  {
    var low :- U32(s, lo);
    var high :- U32(s, hi);
    Ok(high * TWO_TO_32 + low)
  }

  /** `(hi as u64) << 32 | lo as u64` is the sum `hi * 2^32 + lo` when both
      halves are 32-bit values, which is how `U64LoHi` combines them. */
  lemma ShiftOrIsAdd(lo: bv64, hi: bv64)
    requires lo < 0x1_0000_0000 && hi < 0x1_0000_0000
    ensures (hi << 32) | lo == hi * 0x1_0000_0000 + lo
  {
  }

  /** `Reader::vec`: exactly `len` bytes starting at `offset`.  An empty
      run is read without touching the source, so it succeeds at any offset. */
  function Vec(s: seq<uint8>, offset: nat, len: nat): (r: Result<seq<uint8>>)
    ensures r.Ok? <==> len == 0 || offset + len <= |s|
    ensures r.Ok? ==> |r.value| == len && forall i :: 0 <= i < len ==> r.value[i] == s[offset + i]
    ensures r.Err? ==> r.error == UnexpectedEof(offset, len)
  {
    if len == 0 then Ok([])
    else if offset + len <= |s| then Ok(s[offset..offset + len])
    else Err(UnexpectedEof(offset, len))
  }
}
