/** The format of a magnet file: the size of the link, the link, and whether to download. */
module MagnetCodec {
  import opened Common

  datatype Magnet = Magnet(link: seq<byte>, download: bool)

  /** How many bytes the size takes where sizes have 64 bits. */
  const SIZE_BYTES := 8

  /** Sizes below this keep their value when converted to the signed count that streams take. */
  const SIZE_LIMIT := 0x8000_0000

  /** The `n` low bytes of a number, least significant first. */
  function LittleEndian(v: nat, n: nat): (bytes: seq<byte>)
    ensures |bytes| == n
  {
    if n == 0 then [] else [(v % 256) as byte] + LittleEndian(v / 256, n - 1)
  }

  function Value(bytes: seq<byte>): nat {
    if bytes == [] then 0 else bytes[0] as nat + 256 * Value(bytes[1..])
  }

  function Power256(n: nat): nat {
    if n == 0 then 1 else 256 * Power256(n - 1)
  }

  lemma {:induction false} ValueOfLittleEndian(v: nat, n: nat)
    requires v < Power256(n)
    ensures Value(LittleEndian(v, n)) == v
  {
    if n > 0 {
      ValueOfLittleEndian(v / 256, n - 1);
    }
  }

  /** What is written for a magnet, with a size of `width` bytes. */
  function Encode(m: Magnet, width: nat): seq<byte> {
    LittleEndian(|m.link|, width) + m.link + [if m.download then 1 else 0]
  }

  /**
   * What is read back from a file. A file too short for a size, or whose size is not a valid count,
   * yields nothing; a link cut short is padded with zeros, and a missing last byte reads as false.
   */
  function Decode(file: seq<byte>, width: nat): Option<Magnet> {
    if |file| < width || Value(file[..width]) >= SIZE_LIMIT then None
    else
      var size, rest := Value(file[..width]), file[width..];
      if |rest| <= size then Some(Magnet(rest + seq(size - |rest|, i => 0), false))
      else Some(Magnet(rest[..size], rest[size] != 0))
  }

  /** The link's size is a valid count and fits its bytes. */
  predicate Writable(m: Magnet, width: nat) {
    |m.link| < SIZE_LIMIT && |m.link| < Power256(width)
  }

  lemma {:induction false} LittleEndianAt(v: nat, n: nat, i: nat)
    requires i < n
    ensures Power256(i) > 0 && LittleEndian(v, n)[i] as int == v / Power256(i) % 256
  {
    if i > 0 {
      LittleEndianAt(v / 256, n - 1, i - 1);
      DivideTwice(v, Power256(i - 1));
    }
  }

  lemma DivideTwice(v: nat, d: nat)
    requires d > 0
    ensures v / 256 / d == v / (256 * d)
  {
    var q, r := v / 256 / d, v / 256 % d;
    assert v / 256 == q * d + r;
    assert v == 256 * (q * d + r) + v % 256;
    assert 256 * (q * d + r) == q * (256 * d) + 256 * r;
    QuotientIs(v, 256 * d, q, 256 * r + v % 256);
  }

  lemma QuotientIs(v: nat, d: nat, q: nat, r: nat)
    requires r < d && v == q * d + r
    ensures v / d == q
  {
    var p := v / d;
    if p < q {
      Less(p, q, d);
    } else if p > q {
      Less(q, p, d);
    }
  }

  lemma Less(p: nat, q: nat, d: nat)
    requires p < q
    ensures (p + 1) * d <= q * d
  {
    assert (q - (p + 1)) * d >= 0;
  }

  /**
   * The layout of the file: first the size of the link in `width` bytes, the least significant first, then the
   * link, then one byte that is 1 iff the torrent is to be downloaded, else 0.
   */
  lemma LayoutIs(m: Magnet, width: nat)
    ensures var file := Encode(m, width);
            && |file| == width + |m.link| + 1
            && (forall i :: 0 <= i < width ==>
                  Power256(i) > 0 && file[i] as int == |m.link| / Power256(i) % 256)
            && file[width..width + |m.link|] == m.link
            && file[width + |m.link|] == if m.download then 1 else 0
  {
    forall i | 0 <= i < width
      ensures Power256(i) > 0 && Encode(m, width)[i] as int == |m.link| / Power256(i) % 256
    {
      LittleEndianAt(|m.link|, width, i);
    }
  }

  /** Sizes of four bytes or more fit every valid count. */
  lemma {:induction false} CountsFit(width: nat)
    requires width >= 4
    ensures SIZE_LIMIT < Power256(width)
  {
    if width > 4 {
      CountsFit(width - 1);
    }
  }

  /** Round trip: what was written is read back, for every link that can be written and every width of sizes. */
  lemma DecodeEncode(m: Magnet, width: nat)
    requires Writable(m, width)
    ensures Decode(Encode(m, width), width) == Some(m)
  {
    hide LittleEndian, Value;
    var file := Encode(m, width);
    ValueOfLittleEndian(|m.link|, width);
    assert file[..width] == LittleEndian(|m.link|, width);
    assert file[width..] == m.link + [if m.download then 1 else 0];
    assert file[width..][..|m.link|] == m.link;
  }

  /** A file cut short inside the link reads as the link with zeros for what is missing, not to be downloaded. */
  lemma DecodeTruncated(m: Magnet, width: nat, n: nat)
    requires Writable(m, width) && n <= |m.link|
    ensures Decode(Encode(m, width)[..width + n], width)
         == Some(Magnet(m.link[..n] + seq(|m.link| - n, i => 0), false))
  {
    hide LittleEndian, Value;
    var file := Encode(m, width)[..width + n];
    ValueOfLittleEndian(|m.link|, width);
    assert file[..width] == LittleEndian(|m.link|, width);
    assert file[width..] == m.link[..n];
  }
}
