/** `Lot`: a number of shares of one asset held at one custodian, with a
    64-bit identifier, and the hexadecimal form the identifier is printed in. */
module Lots {
  import opened Wrappers
  import opened AssetTags

  const TwoTo64: int := 0x1_0000_0000_0000_0000

  /** Rust's `u64`. */
  type Uid = x: int | 0 <= x < TwoTo64

  type Byte = x: int | 0 <= x < 256

  datatype Lot = Lot(custodian: string, assetTag: AssetTag, shareCount: real, uid: Uid)

  /** `Lot::has_tag`. */
  predicate HasTag(lot: Lot, t: AssetTag) {
    lot.assetTag == t
  }

  /** `Lot::has_custodian`. */
  predicate HasCustodian(lot: Lot, custodian: string) {
    lot.custodian == custodian
  }

  /** `Lot::with_share_count`: the same lot holding `count` shares. */
  function WithShareCount(lot: Lot, count: real): (r: Lot)
    ensures r.shareCount == count
    ensures r.custodian == lot.custodian && r.assetTag == lot.assetTag && r.uid == lot.uid
  {
    lot.(shareCount := count)
  }

  function Pow256(n: nat): (r: nat)
    ensures r > 0
  {
    if n == 0 then 1 else 256 * Pow256(n - 1)
  }

  /** The low `n` bytes of `x`, most significant first. */
  function BeBytes(x: nat, n: nat): (r: seq<Byte>)
    ensures |r| == n
  {
    if n == 0 then [] else BeBytes(x / 256, n - 1) + [x % 256]
  }

  /** `u64::to_be_bytes`. */
  function ToBeBytes(u: Uid): (r: seq<Byte>)
    ensures |r| == 8
  {
    BeBytes(u, 8)
  }

  /** The number whose big-endian bytes are `bs`. */
  function FromBeBytes(bs: seq<Byte>): (r: nat)
    ensures r < Pow256(|bs|)
  {
    if |bs| == 0 then 0
    else
      var high := FromBeBytes(bs[..|bs| - 1]);
      assert high * 256 + bs[|bs| - 1] < Pow256(|bs|) by {
        assert high + 1 <= Pow256(|bs| - 1);
        assert (high + 1) * 256 <= Pow256(|bs| - 1) * 256;
      }
      high * 256 + bs[|bs| - 1]
  }

  lemma ByteSplit(x: nat, n: nat)
    requires n > 0 && x < Pow256(n)
    ensures x / 256 < Pow256(n - 1)
    ensures (x / 256) * 256 + x % 256 == x
  {
  }

  lemma {:induction false} BeBytesRoundTrip(x: nat, n: nat)
    requires x < Pow256(n)
    ensures FromBeBytes(BeBytes(x, n)) == x
  {
    if n > 0 {
      var bs := BeBytes(x, n);
      assert bs[..n - 1] == BeBytes(x / 256, n - 1);
      assert bs[n - 1] == x % 256;
      ByteSplit(x, n);
      BeBytesRoundTrip(x / 256, n - 1);
    }
  }

  /** A lower-case hexadecimal digit, 0-9 or a-f. */
  predicate IsHexDigit(c: char) {
    '0' <= c <= '9' || 'a' <= c <= 'f'
  }

  function HexDigit(v: int): (c: char)
    requires 0 <= v < 16
    ensures IsHexDigit(c)
  {
    if v < 10 then ('0' as int + v) as char else ('a' as int + v - 10) as char
  }

  /** The value of a lower-case hexadecimal digit. */
  function HexValue(c: char): (r: Option<int>)
    ensures r.Some? ==> 0 <= r.value < 16
  {
    if '0' <= c <= '9' then Some(c as int - '0' as int)
    else if 'a' <= c <= 'f' then Some(c as int - 'a' as int + 10)
    else None
  }

  lemma HexValueOfDigit(v: int)
    requires 0 <= v < 16
    ensures HexValue(HexDigit(v)) == Some(v)
  {
  }

  /** `hex::encode`: two lower-case digits per byte, high nibble first. */
  function HexEncode(bs: seq<Byte>): (r: string)
    ensures |r| == 2 * |bs|
    ensures forall i :: 0 <= i < |r| ==> IsHexDigit(r[i])
  {
    if |bs| == 0 then []
    else [HexDigit(bs[0] / 16), HexDigit(bs[0] % 16)] + HexEncode(bs[1..])
  }

  /** Reading pairs of hexadecimal digits back into bytes. */
  function HexDecode(s: string): Option<seq<Byte>>
  {
    if |s| < 2 then (if |s| == 0 then Some([]) else None)
    else
      var hi := HexValue(s[0]);
      var lo := HexValue(s[1]);
      var rest := HexDecode(s[2..]);
      if hi.Some? && lo.Some? && rest.Some? then Some([hi.value * 16 + lo.value] + rest.value)
      else None
  }

  lemma {:induction false} HexRoundTrip(bs: seq<Byte>)
    ensures HexDecode(HexEncode(bs)) == Some(bs)
  {
    if |bs| > 0 {
      var s := HexEncode(bs);
      var hi, lo := bs[0] / 16, bs[0] % 16;
      assert s[0] == HexDigit(hi) && s[1] == HexDigit(lo);
      HexValueOfDigit(hi);
      HexValueOfDigit(lo);
      assert s[2..] == HexEncode(bs[1..]);
      HexRoundTrip(bs[1..]);
      assert hi * 16 + lo == bs[0];
      assert [bs[0]] + bs[1..] == bs;
    }
  }

  /** `Lot::uid_pretty`: the identifier as sixteen lower-case hexadecimal
      digits, most significant byte first, leading zeros kept. */
  function UidPretty(uid: Uid): (r: string)
    ensures |r| == 16
    ensures forall i :: 0 <= i < |r| ==> IsHexDigit(r[i])
  {
    HexEncode(ToBeBytes(uid))
  }

  /** The identifier written by `UidPretty`, read back. */
  function ParseUid(s: string): Option<Uid>
  {
    if |s| != 16 then None
    else match HexDecode(s)
      case Some(bs) =>
        var x := FromBeBytes(bs);
        if x < TwoTo64 then Some(x) else None
      case None => None
  }

  /** Every identifier is printed so that it can be read back. */
  lemma UidPrettyRoundTrip(uid: Uid)
    ensures ParseUid(UidPretty(uid)) == Some(uid)
  {
    HexRoundTrip(ToBeBytes(uid));
    assert Pow256(8) == TwoTo64;
    BeBytesRoundTrip(uid, 8);
  }

  /** Different identifiers are printed differently. */
  lemma UidPrettyInjective(a: Uid, b: Uid)
    requires UidPretty(a) == UidPretty(b)
    ensures a == b
  {
    UidPrettyRoundTrip(a);
    UidPrettyRoundTrip(b);
  }

  /** Leading zero bytes are kept: one prints as fifteen zeros and a one. */
  lemma UidPrettyOfOne()
    ensures UidPretty(1) == "0000000000000001"
  {
    BytesOfOne();
    HexOfOne();
  }

  lemma BytesOfOne()
    ensures ToBeBytes(1) == [0, 0, 0, 0, 0, 0, 0, 1]
  {
    assert BeBytes(0, 1) == [0];
    assert BeBytes(0, 2) == [0, 0];
    assert BeBytes(0, 3) == [0, 0, 0];
    assert BeBytes(0, 4) == [0, 0, 0, 0];
    assert BeBytes(0, 5) == [0, 0, 0, 0, 0];
    assert BeBytes(0, 6) == [0, 0, 0, 0, 0, 0];
    assert BeBytes(0, 7) == [0, 0, 0, 0, 0, 0, 0];
  }

  lemma HexOfOne()
    ensures HexEncode([0, 0, 0, 0, 0, 0, 0, 1]) == "0000000000000001"
  {
    HexOfZeros();
    HexEncodeConcat([0, 0, 0, 0, 0, 0, 0], [1]);
    assert HexEncode([1]) == "01";
    assert [0, 0, 0, 0, 0, 0, 0] + [1] == [0, 0, 0, 0, 0, 0, 0, 1];
  }

  /** Encoding is done byte by byte. */
  lemma {:induction false} HexEncodeConcat(a: seq<Byte>, b: seq<Byte>)
    ensures HexEncode(a + b) == HexEncode(a) + HexEncode(b)
  {
    if |a| == 0 {
      assert a + b == b;
    } else {
      assert (a + b)[1..] == a[1..] + b;
      HexEncodeConcat(a[1..], b);
    }
  }

  lemma HexOfZeros()
    ensures HexEncode([0, 0, 0, 0, 0, 0, 0]) == "00000000000000"
  {
    assert HexEncode([0]) == "00";
    HexEncodeConcat([0], [0]);
    assert [0] + [0] == [0, 0];
    HexEncodeConcat([0, 0], [0]);
    assert [0, 0] + [0] == [0, 0, 0];
    HexEncodeConcat([0, 0, 0], [0, 0, 0, 0]);
    HexEncodeConcat([0, 0], [0, 0]);
    assert [0, 0] + [0, 0] == [0, 0, 0, 0];
    assert [0, 0, 0] + [0, 0, 0, 0] == [0, 0, 0, 0, 0, 0, 0];
  }

  /** The most significant byte comes first: 2^56 prints as "01" and
      fourteen zeros. */
  lemma UidPrettyOfTopByte()
    ensures UidPretty(0x0100_0000_0000_0000) == "0100000000000000"
  {
    BytesOfTopByte();
    HexOfTopByte();
  }

  lemma BytesOfTopByte()
    ensures ToBeBytes(0x0100_0000_0000_0000) == [1, 0, 0, 0, 0, 0, 0, 0]
  {
    assert BeBytes(1, 1) == [1];
    assert BeBytes(0x100, 2) == [1, 0];
    assert BeBytes(0x1_0000, 3) == [1, 0, 0];
    assert BeBytes(0x100_0000, 4) == [1, 0, 0, 0];
    assert BeBytes(0x1_0000_0000, 5) == [1, 0, 0, 0, 0];
    assert BeBytes(0x100_0000_0000, 6) == [1, 0, 0, 0, 0, 0];
    assert BeBytes(0x1_0000_0000_0000, 7) == [1, 0, 0, 0, 0, 0, 0];
  }

  lemma HexOfTopByte()
    ensures HexEncode([1, 0, 0, 0, 0, 0, 0, 0]) == "0100000000000000"
  {
    HexOfZeros();
    HexEncodeConcat([1], [0, 0, 0, 0, 0, 0, 0]);
    assert HexEncode([1]) == "01";
    assert [1] + [0, 0, 0, 0, 0, 0, 0] == [1, 0, 0, 0, 0, 0, 0, 0];
  }
}
