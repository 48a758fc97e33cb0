/** The two Internet checksums of src/bcmutils.c: `bcm_ip_cksum` sums big-endian words and folds
    in a loop; `ipv4_hdr_cksum` sums words in host order (little-endian here), skips the checksum
    field and folds exactly twice. */
module Checksum {
  import opened Bits

  const CKSUM_OFFSET: nat := 10
  const SRC_IP_OFFSET: nat := 12
  const IPV4_MIN_HEADER_LEN: nat := 20

  /** Sum of the words of `b` read high byte first; a left-over byte is a high byte. */
  function BeSum(b: seq<byte>): nat
  {
    if |b| == 0 then 0
    else if |b| == 1 then 256 * b[0]
    else 256 * b[0] + b[1] + BeSum(b[2..])
  }

  /** Sum of the words of `b` read low byte first; a left-over byte is a low byte. */
  function LeSum(b: seq<byte>): nat
  {
    if |b| == 0 then 0
    else if |b| == 1 then b[0]
    else b[0] + 256 * b[1] + LeSum(b[2..])
  }

  /** The one's complement sum: the residue modulo 65535, with zero only for zero. */
  function Canon(sum: nat): (c: uint16)
    ensures c == 0 <==> sum == 0
  {
    if sum == 0 then 0 else (sum - 1) % 65535 + 1
  }

  lemma CanonUnique(sum: nat, c: uint16, m: int)
    requires c > 0 && sum == 65535 * m + c
    requires sum > 0
    ensures Canon(sum) == c
  {
    assert sum - 1 == 65535 * m + (c - 1);
  }

  function Complement(x: uint16): uint16 { 65535 - x }

  function Swap16(x: uint16): uint16 { 256 * (x % 256) + x / 256 }

  lemma SwapComplement(x: uint16)
    ensures Swap16(Complement(x)) == Complement(Swap16(x))
  {
    var h, l := x / 256, x % 256;
    assert 65535 - x == 256 * (255 - h) + (255 - l);
    assert Complement(x) / 256 == 255 - h && Complement(x) % 256 == 255 - l;
  }

  /** 32-bit unsigned addition. */
  function Add32(x: nat, y: nat): (r: uint32) { (x + y) % W32 }

  lemma Add32Assoc(x: nat, y: nat, z: nat)
    ensures Add32(Add32(x, y), z) == Add32(x, y + z)
  {
    var k := (x + y) / W32;
    assert (x + y) % W32 + z == x + y + z - W32 * k;
    ModShift(x + y + z, k);
  }

  lemma ModShift(a: nat, k: nat)
    requires a - W32 * k >= 0
    ensures (a - W32 * k) % W32 == a % W32
  {
  }

  lemma Add32Small(x: nat, y: nat)
    requires x + y < W32
    ensures Add32(x, y) == x + y
  {
  }

  /** What `bcm_ip_cksum` computes, 32-bit wrap of the running sum included. */
  function IpCksumOf(buf: seq<byte>, sum: uint32): uint16
  {
    Complement(Canon(Add32(sum, BeSum(buf))))
  }

  /** What `ipv4_hdr_cksum` computes. */
  function HdrCksumOf(ip: seq<byte>): uint16
  {
    if |ip| < IPV4_MIN_HEADER_LEN then 0
    else Complement(Canon(Add32(Add32(0, LeSum(ip[..CKSUM_OFFSET])), LeSum(ip[SRC_IP_OFFSET..]))))
  }

  method BcmIpCksum(buf: seq<byte>, sum0: uint32) returns (r: uint16)
    ensures r == IpCksumOf(buf, sum0)
  {
    var sum: nat, i: nat, len: nat := sum0, 0, |buf|;
    Add32Small(sum0, 0);
    while len > 1
      invariant i + len == |buf|
      invariant Add32(sum, BeSum(buf[i..])) == Add32(sum0, BeSum(buf))
      invariant sum < W32
    {
      var hi: nat, lo: nat := buf[i], buf[i + 1];
      Add32Assoc(sum, 256 * hi + lo, BeSum(buf[i + 2..]));
      assert buf[i..][2..] == buf[i + 2..];
      sum := Add32(sum, 256 * hi + lo);
      i := i + 2;
      len := len - 2;
    }
    if len > 0 {
      var hi: nat := buf[i];
      sum := Add32(sum, 256 * hi);
    }
    assert sum == Add32(sum0, BeSum(buf)) by { Add32Small(sum, 0); }
    r := FoldLoop(sum);
  }

  /** The folding loop of `bcm_ip_cksum` and its final complement. */
  method FoldLoop(sum0: uint32) returns (r: uint16)
    ensures r == Complement(Canon(sum0))
  {
    var sum: nat := sum0;
    ghost var m: nat := 0;
    while sum / 0x1_0000 != 0
      invariant sum0 == 65535 * m + sum
      invariant sum == 0 <==> sum0 == 0
      decreases sum
    {
      m := m + sum / 0x1_0000;
      sum := sum % 0x1_0000 + sum / 0x1_0000;
    }
    if sum0 > 0 {
      CanonUnique(sum0, sum, m);
    }
    r := 65535 - sum;
  }

  method IpCksumPartial(sum0: uint32, b: seq<byte>) returns (sum: uint32)
    requires |b| % 2 == 0
    ensures sum == Add32(sum0, LeSum(b))
  {
    sum := sum0;
    var i: nat := 0;
    Add32Small(sum0, 0);
    while i < |b| / 2
      invariant i <= |b| / 2
      invariant Add32(sum, LeSum(b[2 * i..])) == Add32(sum0, LeSum(b))
    {
      var lo: nat, hi: nat := b[2 * i], b[2 * i + 1];
      Add32Assoc(sum, lo + 256 * hi, LeSum(b[2 * i + 2..]));
      assert b[2 * i..][2..] == b[2 * i + 2..];
      sum := Add32(sum, lo + 256 * hi);
      i := i + 1;
    }
    Add32Small(sum, 0);
  }

  method IpCksum(sum0: uint32, b: seq<byte>) returns (r: uint16)
    ensures r == Complement(Canon(Add32(sum0, LeSum(b))))
  {
    var sum: nat, i: nat, count: nat := sum0, 0, |b|;
    Add32Small(sum0, 0);
    while count > 1
      invariant i + count == |b|
      invariant Add32(sum, LeSum(b[i..])) == Add32(sum0, LeSum(b))
      invariant sum < W32
    {
      var lo: nat, hi: nat := b[i], b[i + 1];
      Add32Assoc(sum, lo + 256 * hi, LeSum(b[i + 2..]));
      assert b[i..][2..] == b[i + 2..];
      sum := Add32(sum, lo + 256 * hi);
      i := i + 2;
      count := count - 2;
    }
    if count > 0 {
      sum := Add32(sum, b[i]);
    }
    assert sum == Add32(sum0, LeSum(b)) by { Add32Small(sum, 0); }
    TwoFoldsSuffice(sum);
    sum := sum / 0x1_0000 + sum % 0x1_0000;
    sum := sum + sum / 0x1_0000;
    r := 65535 - sum % 0x1_0000;
  }

  method Ipv4HdrCksum(ip: seq<byte>) returns (r: uint16)
    ensures r == HdrCksumOf(ip)
    ensures |ip| < IPV4_MIN_HEADER_LEN ==> r == 0
  {
    if |ip| < IPV4_MIN_HEADER_LEN {
      return 0;
    }
    var sum := IpCksumPartial(0, ip[..CKSUM_OFFSET]);
    r := IpCksum(sum, ip[SRC_IP_OFFSET..]);
  }

  /** Two folds bring any 32-bit sum to its one's complement form. */
  lemma TwoFoldsSuffice(sum: nat)
    requires sum < W32
    ensures var once := sum / 0x1_0000 + sum % 0x1_0000;
            (once + once / 0x1_0000) % 0x1_0000 == Canon(sum)
  {
    var a := sum / 0x1_0000;
    var once := a + sum % 0x1_0000;
    assert sum == 65535 * a + once;
    if sum == 0 {
    } else if once < 0x1_0000 {
      CanonUnique(sum, once, a);
    } else {
      assert once / 0x1_0000 == 1;
      CanonUnique(sum, once - 65535, a + 1);
    }
  }

  /** Bytes at odd positions; each shifts the two byte orders apart by a multiple of 65535. */
  function OddSum(b: seq<byte>): nat
  {
    if |b| < 2 then 0 else b[1] + OddSum(b[2..])
  }

  lemma {:induction false} OrdersDiffer(b: seq<byte>)
    ensures 256 * LeSum(b) == BeSum(b) + 65535 * OddSum(b)
    ensures LeSum(b) == 0 <==> BeSum(b) == 0
  {
    if |b| <= 1 {
    } else {
      OrdersDiffer(b[2..]);
    }
  }

  lemma {:induction false} SumBound(b: seq<byte>)
    ensures LeSum(b) <= 65535 * ((|b| + 1) / 2) && BeSum(b) <= 65535 * ((|b| + 1) / 2)
  {
    if |b| <= 1 {
    } else {
      SumBound(b[2..]);
    }
  }

  lemma {:induction false} LeSumConcat(a: seq<byte>, b: seq<byte>)
    requires |a| % 2 == 0
    ensures LeSum(a + b) == LeSum(a) + LeSum(b)
  {
    if |a| == 0 {
      assert a + b == b;
    } else {
      assert (a + b)[2..] == a[2..] + b;
      LeSumConcat(a[2..], b);
    }
  }

  /** Swapping the bytes of a folded sum is multiplying the sum by 256. */
  lemma SwapIsTimes256(le: nat, be: nat, k: nat)
    requires 256 * le == be + 65535 * k
    requires le == 0 <==> be == 0
    ensures Canon(be) == Swap16(Canon(le))
  {
    if le > 0 {
      var c := Canon(le);
      var m := (le - 1) / 65535;
      assert le == 65535 * m + c;
      assert 256 * c == Swap16(c) + 65535 * (c / 256);
      assert 1 <= Swap16(c) <= 65535;
      CanonUnique(be, Swap16(c), 256 * m - k + c / 256);
    }
  }

  // ----- what the checksum means -----

  /** The bytes as one big-endian number. */
  function Value(b: seq<byte>): nat
  {
    if b == [] then 0 else 256 * Value(b[..|b| - 1]) + b[|b| - 1]
  }

  /** A left-over byte is followed by a zero. */
  function Padded(b: seq<byte>): (r: seq<byte>)
    ensures |r| % 2 == 0
  {
    if |b| % 2 == 0 then b else b + [0]
  }

  lemma {:induction false} BeSumPadded(b: seq<byte>)
    ensures BeSum(Padded(b)) == BeSum(b)
  {
    if |b| == 0 {
    } else if |b| == 1 {
      assert (b + [0])[2..] == [];
    } else {
      assert Padded(b)[2..] == Padded(b[2..]);
      BeSumPadded(b[2..]);
    }
  }

  lemma {:induction false} BeSumSnoc(b: seq<byte>, h: byte, l: byte)
    requires |b| % 2 == 0
    ensures BeSum(b + [h, l]) == BeSum(b) + 256 * h + l
  {
    var t := b + [h, l];
    if b == [] {
      assert t[2..] == [];
    } else {
      assert t[2..] == b[2..] + [h, l];
      BeSumSnoc(b[2..], h, l);
    }
  }

  /** The word sum and the number differ by a multiple of 65535, and are zero together. */
  lemma {:induction false} SumIsValue(b: seq<byte>) returns (k: nat)
    requires |b| % 2 == 0
    ensures Value(b) == BeSum(b) + 65535 * k
    ensures Value(b) == 0 <==> BeSum(b) == 0
  {
    if b == [] {
      k := 0;
    } else {
      var c, h, l := b[..|b| - 2], b[|b| - 2], b[|b| - 1];
      assert b == c + [h, l] && b[..|b| - 1] == c + [h] && (c + [h])[..|c|] == c;
      BeSumSnoc(c, h, l);
      var j := SumIsValue(c);
      k := j + Value(c);
    }
  }

  /** The checksum is the one 16-bit number that brings the buffer, as a number, and the initial sum to a
      multiple of 65535, with 65535 only for all zeros; for every buffer that cannot overflow the 32-bit sum. */
  lemma IpCksumMeans(buf: seq<byte>, sum: uint32)
    requires sum + 65535 * ((|buf| + 1) / 2) < W32
    ensures var v, r := Value(Padded(buf)), IpCksumOf(buf, sum);
            (sum + v + r) % 65535 == 0 && (r == 65535 <==> sum + v == 0)
  {
    hide Value, BeSum, Padded;
    SumBound(buf);
    BeSumPadded(buf);
    var k := SumIsValue(Padded(buf));
    var total := sum + BeSum(buf);
    Add32Small(sum, BeSum(buf));
    var m := if total == 0 then 0 else (total - 1) / 65535;
    assert total == 65535 * m + Canon(total);
    assert sum + Value(Padded(buf)) + IpCksumOf(buf, sum) == 65535 * (m + k + 1);
  }

  function ZeroedField(ip: seq<byte>): seq<byte>
    requires |ip| >= IPV4_MIN_HEADER_LEN
  {
    ip[..CKSUM_OFFSET] + [0, 0] + ip[SRC_IP_OFFSET..]
  }

  lemma SkippingIsZeroing(ip: seq<byte>)
    requires |ip| >= IPV4_MIN_HEADER_LEN
    ensures LeSum(ip[..CKSUM_OFFSET]) + LeSum(ip[SRC_IP_OFFSET..]) == LeSum(ZeroedField(ip))
  {
    var a, z, b := ip[..CKSUM_OFFSET], [0, 0], ip[SRC_IP_OFFSET..];
    assert a + z + b == a + (z + b);
    LeSumConcat(a, z + b);
    LeSumConcat(z, b);
    assert z[2..] == [];
  }

  /** Byte-order independence (section 2(B) of RFC 1071): for every header that cannot overflow the
      32-bit sum, the host-order checksum is the byte swap of the big-endian one taken over the
      same header with the checksum field zeroed. */
  lemma HdrCksumIsSwapped(ip: seq<byte>)
    requires IPV4_MIN_HEADER_LEN <= |ip| <= 131074
    ensures HdrCksumOf(ip) == Swap16(IpCksumOf(ZeroedField(ip), 0))
  {
    var h := ZeroedField(ip);
    HdrSum(ip);
    SumBound(h);
    Add32Small(0, BeSum(h));
    OrdersDiffer(h);
    SwapIsTimes256(LeSum(h), BeSum(h), OddSum(h));
    SwapComplement(Canon(BeSum(h)));
    var c := Canon(LeSum(h));
    SwapTwice(c);
  }

  lemma SwapTwice(c: uint16)
    ensures Swap16(Swap16(c)) == c
  {
    assert Swap16(c) / 256 == c % 256 && Swap16(c) % 256 == c / 256;
  }

  lemma HdrSum(ip: seq<byte>)
    requires IPV4_MIN_HEADER_LEN <= |ip| <= 131074
    ensures HdrCksumOf(ip) == Complement(Canon(LeSum(ZeroedField(ip))))
  {
    SkippingIsZeroing(ip);
    SumBound(ZeroedField(ip));
    var a, b := LeSum(ip[..CKSUM_OFFSET]), LeSum(ip[SRC_IP_OFFSET..]);
    Add32Small(0, a);
    Add32Small(a, b);
  }

  /** The header with `c` stored in its checksum field, in host order. */
  function WithCksum(ip: seq<byte>, c: uint16): (r: seq<byte>)
    requires |ip| >= IPV4_MIN_HEADER_LEN
    ensures |r| == |ip|
  {
    ip[..CKSUM_OFFSET] + [c % 256, c / 256] + ip[SRC_IP_OFFSET..]
  }

  lemma WithCksumSum(ip: seq<byte>, c: uint16)
    requires |ip| >= IPV4_MIN_HEADER_LEN
    ensures LeSum(WithCksum(ip, c)) == LeSum(ZeroedField(ip)) + c
  {
    var a, f, b := ip[..CKSUM_OFFSET], [c % 256, c / 256], ip[SRC_IP_OFFSET..];
    assert a + f + b == a + (f + b);
    LeSumConcat(a, f + b);
    LeSumConcat(f, b);
    assert f[2..] == [];
    SkippingIsZeroing(ip);
  }

  /** Storing the computed checksum makes the header's own check come out zero. */
  lemma StoredHeaderVerifies(ip: seq<byte>)
    requires IPV4_MIN_HEADER_LEN <= |ip| <= 131074
    ensures IpCksumOf(WithCksum(ip, HdrCksumOf(ip)), 0) == 0
  {
    var c := HdrCksumOf(ip);
    var stored := WithCksum(ip, c);
    WithCksumSum(ip, c);
    HdrSum(ip);
    var le := LeSum(ZeroedField(ip));
    var m := if le == 0 then 0 else (le - 1) / 65535;
    assert le == 65535 * m + Canon(le);
    assert LeSum(stored) == 65535 * m + 65535;
    CanonUnique(LeSum(stored), 65535, m);
    OrdersDiffer(stored);
    SumBound(stored);
    SwapIsTimes256(LeSum(stored), BeSum(stored), OddSum(stored));
    assert Swap16(65535) == 65535;
    Add32Small(0, BeSum(stored));
  }
}
