/** Packet memory (PMA) of the USB peripheral: buffer sizes, the receive-count
    encoding of the buffer descriptor table, the half-word copies between byte
    buffers and the PMA, and the bump allocator's regions. */
module UsbPma {

  /** Size of the packet memory in bytes (512 on the STM32F10x), and in the
      16-bit half-words it is accessed by. A PMA byte address `a` is half-word `a / 2`. */
  const PmaBytes: nat := 512
  const PmaWords: nat := PmaBytes / 2

  /** The COUNT field of COUNTn_RX is bits 9..0: for a count `c`, `c & 0x3FF`
      (EP_COUNT_MASK) is `c % CountModulus`. */
  const CountModulus: nat := 0x400

  /** `(val + 1) & ~1`: a transmit buffer size rounded up to an even number of bytes. */
  function RoundEven(val: nat): (r: nat)
    ensures r % 2 == 0 && val <= r < val + 2
  {
    (val + 1) - (val + 1) % 2
  }

  /** `(val + 31) & ~31`: a receive buffer size rounded up to whole 32-byte blocks. */
  function RoundBlocks(val: nat): (r: nat)
    ensures r % 32 == 0 && val <= r < val + 32
  {
    (val + 31) - (val + 31) % 32
  }

  /** The size USB_ConfigEP reserves for a buffer of `maxPacket` bytes: even for an
      IN endpoint; for an OUT endpoint even up to 62 bytes and whole 32-byte blocks
      above, because COUNTn_RX counts in 2-byte units only up to 62. */
  function BufSize(isIn: bool, maxPacket: nat): (r: nat)
    ensures maxPacket <= r
    ensures isIn || maxPacket <= 62 ==> r % 2 == 0 && r < maxPacket + 2
    ensures !isIn && maxPacket > 62 ==> r % 32 == 0 && r < maxPacket + 32
    ensures !isIn ==> (r > 62 <==> maxPacket > 62)
  {
    if isIn then RoundEven(maxPacket)
    else if maxPacket > 62 then RoundBlocks(maxPacket)
    else RoundEven(maxPacket)
  }

  /** `x | 0x8000` on a non-negative number. */
  function OrBlockFlag(x: nat): nat {
    if (x / 0x8000) % 2 == 1 then x else x + 0x8000
  }

  /** The COUNTn_RX value the firmware writes for a receive buffer of `size` bytes:
      `((size << 5) - 1) | 0x8000` above 62 bytes, `size << 9` otherwise. */
  function CountRxWord(size: nat): nat {
    if size > 62 then OrBlockFlag(size * 32 - 1) else size * 512
  }

  /** BL_SIZE (bit 15) of a COUNTn_RX value. */
  function BlockFlag(c: nat): bool {
    (c / 0x8000) % 2 == 1
  }

  /** NUM_BLOCK (bits 14..10) of a COUNTn_RX value. */
  function NumBlock(c: nat): nat {
    (c / 0x400) % 32
  }

  /** The receive buffer size the peripheral reads out of a COUNTn_RX value:
      NUM_BLOCK blocks of 2 bytes, or NUM_BLOCK + 1 blocks of 32 bytes when BL_SIZE is set. */
  function RxCapacity(c: nat): nat {
    if BlockFlag(c) then 32 * (NumBlock(c) + 1) else 2 * NumBlock(c)
  }

  /** The sizes the receive-count field can describe. */
  predicate EncodableRxSize(size: nat) {
    (size <= 62 && size % 2 == 0) || (64 <= size <= 1024 && size % 32 == 0)
  }

  /** The encoding is read back as the buffer size it was written for: BL_SIZE is
      set exactly above 62 bytes, and NUM_BLOCK holds size / 32 - 1 or size / 2. */
  lemma CountRxRoundTrip(size: nat)
    requires EncodableRxSize(size)
    ensures BlockFlag(CountRxWord(size)) == (size > 62)
    ensures NumBlock(CountRxWord(size)) == if size > 62 then size / 32 - 1 else size / 2
    ensures RxCapacity(CountRxWord(size)) == size
    ensures CountRxWord(size) < 0x10000
  {
    if size > 62 {
      var m := size / 32;
      assert size * 32 - 1 == 1024 * (m - 1) + 1023;
      assert (size * 32 - 1) / 0x8000 == 0;
      var c := size * 32 - 1 + 0x8000;
      assert c == 1024 * (m + 31) + 1023;
      assert c / 0x400 == m + 31;
      assert c / 0x8000 == 1;
    } else {
      var c := size * 512;
      assert c == 1024 * (size / 2);
      assert c / 0x400 == size / 2;
      assert c / 0x8000 == 0;
    }
  }

  /** Every size USB_ConfigEP reserves for an OUT buffer that fits the PMA can be encoded. */
  lemma BufSizeEncodable(maxPacket: nat)
    requires BufSize(false, maxPacket) <= PmaBytes
    ensures EncodableRxSize(BufSize(false, maxPacket))
  {
  }

  /** Number of half-words moved for `cnt` bytes: `(cnt + 1) / 2`. */
  function HalfWords(cnt: nat): (n: nat)
    ensures cnt <= 2 * n <= cnt + 1
  {
    (cnt + 1) / 2
  }

  /** A little-endian half-word from two bytes, as a packed `uint16_t` load reads them. */
  function HalfWord(lo: bv8, hi: bv8): bv16 {
    ((hi as bv16) << 8) | (lo as bv16)
  }

  function LowByte(w: bv16): bv8 { (w & 0xFF) as bv8 }

  function HighByte(w: bv16): bv8 { (w >> 8) as bv8 }

  /** The first `n` half-words of a byte buffer, in little-endian order. */
  function Pack(data: seq<bv8>, n: nat): (w: seq<bv16>)
    requires 2 * n <= |data|
    ensures |w| == n
    ensures forall i :: 0 <= i < n ==> LowByte(w[i]) == data[2 * i] && HighByte(w[i]) == data[2 * i + 1]
  {
    seq(n, i requires 0 <= i < n => HalfWord(data[2 * i], data[2 * i + 1]))
  }

  /** The bytes of a run of half-words, in little-endian order. */
  function Unpack(w: seq<bv16>): (b: seq<bv8>)
    ensures |b| == 2 * |w|
  {
    seq(2 * |w|, j requires 0 <= j < 2 * |w| =>
      if j % 2 == 0 then LowByte(w[j / 2]) else HighByte(w[j / 2]))
  }

  /** Unpacking what was packed gives the bytes back. */
  lemma UnpackPack(data: seq<bv8>, n: nat)
    requires 2 * n <= |data|
    ensures Unpack(Pack(data, n)) == data[..2 * n]
  {
    var b := Unpack(Pack(data, n));
    forall j | 0 <= j < 2 * n
      ensures b[j] == data[j]
    {
      if j % 2 == 0 {
        assert data[j] == data[2 * (j / 2)];
      } else {
        assert data[j] == data[2 * (j / 2) + 1];
      }
    }
  }

  /** The PMA after the half-words `words` are written from half-word `base` on:
      those half-words hold `words` and every other half-word is unchanged. */
  function Store(pma: seq<bv16>, base: nat, words: seq<bv16>): (r: seq<bv16>)
    requires base + |words| <= |pma|
    ensures |r| == |pma|
    ensures forall i :: 0 <= i < |words| ==> r[base + i] == words[i]
    ensures forall i :: 0 <= i < |pma| && !(base <= i < base + |words|) ==> r[i] == pma[i]
  {
    pma[..base] + words + pma[base + |words|..]
  }

  /** A PMA that holds the first `n` half-words of `data` from half-word `base` on,
      and elsewhere what `pma` holds, is the result of storing them. */
  lemma StoredPacked(pma: seq<bv16>, after: seq<bv16>, base: nat, data: seq<bv8>, n: nat)
    requires 2 * n <= |data| && base + n <= |pma| == |after|
    requires forall i :: 0 <= i < n ==> after[base + i] == HalfWord(data[2 * i], data[2 * i + 1])
    requires forall i :: 0 <= i < |pma| && !(base <= i < base + n) ==> after[i] == pma[i]
    ensures after == Store(pma, base, Pack(data, n))
  {
    var r := Store(pma, base, Pack(data, n));
    forall i | 0 <= i < |pma|
      ensures after[i] == r[i]
    {
      if base <= i < base + n {
        assert r[base + (i - base)] == Pack(data, n)[i - base];
      }
    }
  }

  /** Bytes that hold, pair by pair, the low and high bytes of the half-words `w`
      are the unpacked half-words. */
  lemma UnpackedPairs(b: seq<bv8>, w: seq<bv16>)
    requires |b| == 2 * |w|
    requires forall i :: 0 <= i < |w| ==> b[2 * i] == LowByte(w[i]) && b[2 * i + 1] == HighByte(w[i])
    ensures b == Unpack(w)
  {
    forall j | 0 <= j < |b|
      ensures b[j] == Unpack(w)[j]
    {
      if j % 2 == 0 {
        assert b[j] == b[2 * (j / 2)];
      } else {
        assert b[j] == b[2 * (j / 2) + 1];
      }
    }
  }

  /** The `n` half-words of the PMA from half-word `base` on. */
  function Load(pma: seq<bv16>, base: nat, n: nat): (r: seq<bv16>)
    requires base + n <= |pma|
    ensures |r| == n && forall i :: 0 <= i < n ==> r[i] == pma[base + i]
  {
    pma[base..base + n]
  }

  /** Writing `cnt` bytes to the PMA at half-word `base` and reading `cnt` bytes
      back from the same place returns the half-word-rounded bytes written, so in
      particular the first `cnt` bytes unchanged. */
  lemma StoreLoadRoundTrip(pma: seq<bv16>, base: nat, data: seq<bv8>, cnt: nat)
    requires 2 * HalfWords(cnt) <= |data|
    requires base + HalfWords(cnt) <= |pma|
    ensures Unpack(Load(Store(pma, base, Pack(data, HalfWords(cnt))), base, HalfWords(cnt)))
         == data[..2 * HalfWords(cnt)]
    ensures Unpack(Load(Store(pma, base, Pack(data, HalfWords(cnt))), base, HalfWords(cnt)))[..cnt]
         == data[..cnt]
  {
    var n := HalfWords(cnt);
    var words := Pack(data, n);
    assert Load(Store(pma, base, words), base, n) == words;
    UnpackPack(data, n);
  }

  /** A buffer reserved by the allocator: `size` bytes from PMA byte address `start`. */
  datatype Region = Region(start: nat, size: nat) {
    function End(): nat { start + size }
  }

  /** `rs` are consecutive regions that tile the addresses from `base` up to `end`. */
  ghost predicate Tiled(rs: seq<Region>, base: nat, end: nat)
    decreases |rs|
  {
    if rs == [] then base == end
    else rs[0].start == base && Tiled(rs[1..], rs[0].End(), end)
  }

  /** Tiling regions lie between `base` and `end` and never overlap: each ends
      before the next one starts. */
  lemma {:induction false} TiledDisjoint(rs: seq<Region>, base: nat, end: nat)
    requires Tiled(rs, base, end)
    ensures base <= end
    ensures forall i :: 0 <= i < |rs| ==> base <= rs[i].start && rs[i].End() <= end
    ensures forall i, j :: 0 <= i < j < |rs| ==> rs[i].End() <= rs[j].start
    decreases |rs|
  {
    if rs != [] {
      TiledDisjoint(rs[1..], rs[0].End(), end);
      forall i, j | 0 <= i < j < |rs|
        ensures rs[i].End() <= rs[j].start
      {
        if i > 0 {
          assert rs[i] == rs[1..][i - 1] && rs[j] == rs[1..][j - 1];
        } else {
          assert rs[j] == rs[1..][j - 1];
        }
      }
      forall i | 0 <= i < |rs|
        ensures base <= rs[i].start && rs[i].End() <= end
      {
        if i > 0 {
          assert rs[i] == rs[1..][i - 1];
        }
      }
    }
  }

  /** Bumping the cursor by `size` adds one more region to the tiling. */
  lemma {:induction false} TiledBump(rs: seq<Region>, base: nat, end: nat, size: nat)
    requires Tiled(rs, base, end)
    ensures Tiled(rs + [Region(end, size)], base, end + size)
    decreases |rs|
  {
    if rs == [] {
      assert [Region(end, size)][1..] == [];
    } else {
      TiledBump(rs[1..], rs[0].End(), end, size);
      assert (rs + [Region(end, size)])[1..] == rs[1..] + [Region(end, size)];
    }
  }
}
