/** The Internet checksum of RFC 1071 (src/net/chksum.c). */
module Checksum {
  import opened Words

  const ONES := 0xFFFF

  /** Two bytes as a u16 of the machine, low byte first. */
  function Pair(lo: u8, hi: u8): u16 {
    lo as int + 0x100 * hi as int
  }

  /** The sum of the data as 16-bit words; a last odd byte is padded with zero. */
  function WordSum(data: seq<u8>): nat {
    if data == [] then 0
    else if |data| == 1 then data[0]
    else Pair(data[0], data[1]) + WordSum(data[2..])
  }

  /** The one's-complement sum: addition of 16-bit words with end-around carry, of section 1 of
      RFC 1071, is addition modulo 65535 in which only an all-zero sum gives 0. */
  function OnesSum(n: nat): u16 {
    if n == 0 then 0 else 1 + (n - 1) % ONES
  }

  /** It is the only 16-bit number congruent to the sum that is 0 exactly for 0. */
  lemma OnesSumIs(n: nat, r: u16)
    ensures r == OnesSum(n) <==> r % ONES == n % ONES && (r == 0 <==> n == 0)
  {
    if n > 0 {
      var q, m := (n - 1) / ONES, (n - 1) % ONES;
      assert n == q * ONES + m + 1;
      if m + 1 == ONES {
        assert n == (q + 1) * ONES;
      } else {
        assert n % ONES == m + 1;
      }
    }
  }

  lemma FoldKeeps(n: u32)
    ensures (n % 0x1_0000 + n / 0x1_0000) % ONES == n % ONES
    ensures n % 0x1_0000 + n / 0x1_0000 == 0 <==> n == 0
    ensures n >= 0x1_0000 ==> n % 0x1_0000 + n / 0x1_0000 < n
  {
    var lo, hi := n % 0x1_0000, n / 0x1_0000;
    assert n == hi * ONES + (lo + hi);
  }

  lemma AddMod(a: nat, b: nat, w: nat)
    requires a % ONES == b % ONES
    ensures (a + w) % ONES == (b + w) % ONES
  {
    var k := a / ONES - b / ONES;
    assert a == b + k * ONES;
    if k >= 0 { AddMultiple(b + w, k); } else { AddMultiple(a + w, -k); }
  }

  lemma {:induction false} AddMultiple(n: nat, k: nat)
    ensures (n + k * ONES) % ONES == n % ONES
    decreases k
  {
    if k > 0 {
      AddMultiple(n, k - 1);
      assert n + k * ONES == (n + (k - 1) * ONES) + ONES;
    }
  }

  // ---------------------------------------------------------------- what section 1 of RFC 1071 asks for

  /** One's-complement addition: the carry out of the 16 bits is added at the other end. */
  function AddWithCarry(a: u16, b: u16): u16 {
    (a + b) % 0x1_0000 + (a + b) / 0x1_0000
  }

  /** The words added one by one in that way. */
  function CarrySum(acc: u16, data: seq<u8>): u16
    decreases |data|
  {
    if data == [] then acc
    else if |data| == 1 then AddWithCarry(acc, data[0])
    else CarrySum(AddWithCarry(acc, Pair(data[0], data[1])), data[2..])
  }

  lemma EndAroundCarry(n: nat, a: u16, w: u16)
    requires a == OnesSum(n)
    ensures AddWithCarry(a, w) == OnesSum(n + w)
  {
    OnesSumIs(n, a);
    AddMod(n, a, w);
    FoldKeeps(a + w);
    OnesSumIs(n + w, AddWithCarry(a, w));
  }

  /** Adding up first and reducing once, as the code does, is the sum with end-around carry of
      all words. */
  lemma {:induction false} CarrySumIs(n: nat, acc: u16, data: seq<u8>)
    requires acc == OnesSum(n)
    ensures CarrySum(acc, data) == OnesSum(n + WordSum(data))
    decreases |data|
  {
    if |data| == 1 {
      EndAroundCarry(n, acc, data[0]);
    } else if |data| > 1 {
      var w := Pair(data[0], data[1]);
      EndAroundCarry(n, acc, w);
      CarrySumIs(n + w, AddWithCarry(acc, w), data[2..]);
    }
  }

  // ---------------------------------------------------------------- chksum

  /** The part of the data already summed, and the rest. */
  lemma {:induction false} WordSumSplit(data: seq<u8>, i: nat)
    requires i % 2 == 0 && i <= |data|
    ensures WordSum(data) == WordSum(data[..i]) + WordSum(data[i..])
    decreases i
  {
    if i == 0 {
      assert data[..0] == [] && data[0..] == data;
    } else {
      WordSumSplit(data[2..], i - 2);
      assert data[2..][..i - 2] == data[..i][2..] && data[2..][i - 2..] == data[i..];
    }
  }

  lemma NoWords(data: seq<u8>)
    ensures WordSum(data[..0]) == 0
  {
  }

  lemma NextWord(data: seq<u8>, i: nat)
    requires i % 2 == 0 && i + 2 <= |data|
    ensures WordSum(data[..i + 2]) == WordSum(data[..i]) + Pair(data[i], data[i + 1])
  {
    WordSumSplit(data[..i + 2], i);
    var tail := data[..i + 2][i..];
    assert data[..i + 2][..i] == data[..i] && tail == [data[i], data[i + 1]] && tail[2..] == [];
  }

  lemma LastByte(data: seq<u8>, i: nat)
    requires i % 2 == 0 && i <= |data| <= i + 1
    ensures WordSum(data) == WordSum(data[..i]) + if |data| == i + 1 then data[i] else 0
  {
    WordSumSplit(data, i);
    assert |data| == i + 1 ==> data[i..] == [data[i]];
  }

  /** chksum, with an accumulator of 32 bits that never overflows. */
  method Chksum(data: seq<u8>, start: u32) returns (r: u16)
    requires start < 0x8001_0000
    ensures r == OnesSum(start + WordSum(data))
  {
    hide OnesSum, WordSum, Pair;
    assert WordSum(data[..0]) == 0 by { NoWords(data); }
    var sum: u32 := start;
    var i := 0;
    while |data| - i > 1
      invariant 0 <= i <= |data| && i % 2 == 0 && sum < 0x8001_0000
      invariant sum % ONES == (start + WordSum(data[..i])) % ONES && (sum == 0 <==> start + WordSum(data[..i]) == 0)
    {
      if sum >= 0x8000_0000 {
        FoldKeeps(sum);
        sum := sum % 0x1_0000 + sum / 0x1_0000;
      }
      var w := Pair(data[i], data[i + 1]);
      NextWord(data, i);
      AddMod(sum, start + WordSum(data[..i]), w);
      sum := sum + w;
      i := i + 2;
    }
    LastByte(data, i);
    if |data| - i == 1 {
      AddMod(sum, start + WordSum(data[..i]), data[i]);
      sum := sum + data[i];
    }
    while sum >= 0x1_0000
      invariant sum % ONES == (start + WordSum(data)) % ONES && (sum == 0 <==> start + WordSum(data) == 0)
      decreases sum
    {
      FoldKeeps(sum);
      sum := sum % 0x1_0000 + sum / 0x1_0000;
    }
    r := sum;
    OnesSumIs(start + WordSum(data), r);
  }

  /** ~sum */
  function Complement(n: u16): u16 { ONES - n }

  /** The checksum of data over which `start` was already summed. */
  function ChecksumOf(data: seq<u8>, start: nat): u16 {
    Complement(OnesSum(start + WordSum(data)))
  }

  /** ip_chksum. */
  method IpChksum(data: seq<u8>) returns (r: u16)
    ensures r == ChecksumOf(data, 0)
  {
    var sum := Chksum(data, 0);
    r := Complement(sum);
  }

  /** htons. */
  function Swapped(n: u16): u16 {
    n % 0x100 * 0x100 + n / 0x100
  }

  /** The words of the pseudo-header: two addresses, the protocol and the length. */
  function PseudoSum(dst: seq<u8>, src: seq<u8>, proto: u16, len: u16): u32
    requires |dst| == 4 && |src| == 4
  {
    Pair(dst[0], dst[1]) + Pair(dst[2], dst[3]) + Pair(src[0], src[1]) + Pair(src[2], src[3]) + Swapped(proto) + Swapped(len)
  }

  /** inet_chksum. */
  method InetChksum(data: seq<u8>, dst: seq<u8>, src: seq<u8>, proto: u16) returns (r: u16)
    requires |data| < 0x1_0000 && |dst| == 4 && |src| == 4
    ensures r == ChecksumOf(data, PseudoSum(dst, src, proto, |data|))
  {
    hide OnesSum, WordSum, Pair, Swapped;
    var sum: u32 := 0;
    sum := sum + Pair(dst[0], dst[1]);
    sum := sum + Pair(dst[2], dst[3]);
    sum := sum + Pair(src[0], src[1]);
    sum := sum + Pair(src[2], src[3]);
    sum := sum + Swapped(proto);
    sum := sum + Swapped(|data|);
    var c := Chksum(data, sum);
    r := Complement(c);
  }

  // ---------------------------------------------------------------- putting it in, checking it

  /** The data with the word w at the even place i. */
  function WithWord(data: seq<u8>, i: nat, w: u16): seq<u8>
    requires i + 2 <= |data|
  {
    data[i := w % 0x100][i + 1 := w / 0x100]
  }

  lemma WithWordSum(data: seq<u8>, i: nat, w: u16)
    requires i % 2 == 0 && i + 2 <= |data|
    ensures WordSum(WithWord(data, i, w)) == WordSum(data[..i]) + w + WordSum(data[i + 2..])
  {
    var d := WithWord(data, i, w);
    WordSumSplit(d, i);
    WordSumSplit(d[i..], 2);
    assert d[..i] == data[..i] && d[i..][..2] == [d[i], d[i + 1]] && d[i..][2..] == data[i + 2..];
    assert Pair(d[i], d[i + 1]) == w;
    assert [d[i], d[i + 1]][2..] == [];
  }

  /** What the sender computes over the data with an empty checksum field makes the receiver's
      computation over the whole come out as 0. */
  lemma VerifiesAfterInsert(data: seq<u8>, i: nat, start: nat)
    requires i % 2 == 0 && i + 2 <= |data|
    ensures var c := ChecksumOf(WithWord(data, i, 0), start); ChecksumOf(WithWord(data, i, c), start) == 0
  {
    var c := ChecksumOf(WithWord(data, i, 0), start);
    WithWordSum(data, i, 0);
    WithWordSum(data, i, c);
    var n := start + WordSum(data[..i]) + WordSum(data[i + 2..]);
    OnesSumIs(n, OnesSum(n));
    assert c == ONES - OnesSum(n);
    AddMod(n, OnesSum(n), c);
    OnesSumIs(n + c, ONES);
  }

  /** A change of one word goes unseen exactly when it turns 0 into 65535 or back, and something
      else in the data is not zero. */
  lemma SeesOneWord(data: seq<u8>, i: nat, start: nat, v: u16, w: u16)
    requires i % 2 == 0 && i + 2 <= |data|
    ensures ChecksumOf(WithWord(data, i, v), start) == ChecksumOf(WithWord(data, i, w), start) <==>
      v == w || (((v == 0 && w == ONES) || (v == ONES && w == 0)) && start + WordSum(WithWord(data, i, 0)) > 0)
  {
    WithWordSum(data, i, 0);
    WithWordSum(data, i, v);
    WithWordSum(data, i, w);
    var n := start + WordSum(data[..i]) + WordSum(data[i + 2..]);
    OnesSumIs(n + v, OnesSum(n + v));
    OnesSumIs(n + w, OnesSum(n + w));
    OnesSumIs(n + v, OnesSum(n + w));
    SameMod(n, v, w);
  }

  lemma SameMod(n: nat, v: u16, w: u16)
    ensures (n + v) % ONES == (n + w) % ONES <==> v == w || (v == 0 && w == ONES) || (v == ONES && w == 0)
  {
  }
}
