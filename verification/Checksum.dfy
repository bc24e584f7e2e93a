/**
  The Internet checksum (src/net/ip.cpp, src/net/net.cpp, src/net/icmp.cpp) against RFC 1071.

  The code adds little-endian words in a 32-bit accumulator and folds the carries at the end. The reference
  is the one's complement sum of big-endian words, with the carry brought round after every addition.
 */
module Checksum {

  import opened Common

  const WORD32: nat := 0x1_0000_0000

  // ---------- Sums ----------

  /** The sum of the little-endian words; an odd last byte counts as it is. */
  function LittleSum(b: seq<Byte>): nat {
    if |b| == 0 then 0
    else if |b| == 1 then b[0]
    else b[0] + 256 * (b[1] as int) + LittleSum(b[2..])
  }

  /** The big-endian words; an odd last byte is padded with zero. */
  function BigWords(b: seq<Byte>): (w: seq<nat>)
    ensures forall i :: 0 <= i < |w| ==> w[i] < 0x10000
  {
    if |b| == 0 then []
    else if |b| == 1 then [256 * (b[0] as int)]
    else [256 * (b[0] as int) + b[1]] + BigWords(b[2..])
  }

  /** One's complement addition: the carry comes back in at the bottom. */
  function EndAround(x: nat, y: nat): (r: nat)
    requires x < 0x10000 && y < 0x10000
    ensures r < 0x10000
  {
    if x + y >= 0x10000 then x + y - 0xFFFF else x + y
  }

  function OnesSum(w: seq<nat>, acc: nat): (r: nat)
    requires acc < 0x10000 && forall i :: 0 <= i < |w| ==> w[i] < 0x10000
    ensures r < 0x10000
    decreases |w|
  {
    if w == [] then acc else OnesSum(w[1..], EndAround(acc, w[0]))
  }

  function Swap(x: nat): nat
    requires x < 0x10000
  {
    x % 256 * 256 + x / 256
  }

  /** The carries above 16 bits are added back until none is left. */
  function Fold(n: nat): (r: nat)
    ensures r < 0x10000
  {
    if n < 0x10000 then n else Fold(n % 0x10000 + n / 0x10000)
  }

  /** The value in 1..0xFFFF that n stands for in one's complement; only zero stands for zero. */
  function Norm(n: nat): (r: nat)
    ensures r < 0x10000
  {
    if n == 0 then 0 else 1 + (n - 1) % 0xFFFF
  }

  // ---------- One's complement arithmetic ----------

  lemma {:induction false} NormShift(n: nat, q: nat)
    requires n >= 1
    ensures Norm(n + 0xFFFF * q) == Norm(n)
  {
    if q > 0 {
      NormShift(n, q - 1);
      var x := n + 0xFFFF * (q - 1) - 1;
      assert (x + 0xFFFF) % 0xFFFF == x % 0xFFFF;
      assert n + 0xFFFF * q - 1 == x + 0xFFFF;
    }
  }

  /** Folding does not change what a sum stands for. */
  lemma {:induction false} FoldIsNorm(n: nat)
    ensures Fold(n) == Norm(n)
  {
    if n >= 0x10000 {
      var q, r := n / 0x10000, n % 0x10000;
      FoldIsNorm(r + q);
      NormShift(r + q, q);
      assert n == (r + q) + 0xFFFF * q;
    }
  }

  /** Sums that stand for the same value stay so under addition. */
  lemma NormAdd(x: nat, y: nat)
    ensures Norm(Norm(x) + y) == Norm(x + y)
  {
    if x > 0 {
      var q := (x - 1) / 0xFFFF;
      assert x == Norm(x) + 0xFFFF * q;
      NormShift(Norm(x) + y, q);
    }
  }

  lemma EndAroundIsNorm(x: nat, y: nat)
    requires x < 0x10000 && y < 0x10000
    ensures EndAround(x, y) == Norm(x + y)
  {
    if x + y >= 0x10000 { NormShift(x + y - 0xFFFF, 1); }
  }

  lemma SwapIsTimes256(x: nat)
    requires x < 0x10000
    ensures Swap(x) == Norm(256 * x)
  {
    if x > 0 {
      assert 256 * x == Swap(x) + 0xFFFF * (x / 256);
      NormShift(Swap(x), x / 256);
    }
  }

  function Total(w: seq<nat>): nat {
    if w == [] then 0 else w[0] + Total(w[1..])
  }

  lemma {:induction false} OnesSumIsNorm(w: seq<nat>, acc: nat)
    requires acc < 0x10000 && forall i :: 0 <= i < |w| ==> w[i] < 0x10000
    ensures OnesSum(w, acc) == Norm(acc + Total(w))
    decreases |w|
  {
    if w != [] {
      EndAroundIsNorm(acc, w[0]);
      OnesSumIsNorm(w[1..], EndAround(acc, w[0]));
      NormAdd(acc + w[0], Total(w[1..]));
    }
  }

  /** Each little-endian word, times 256, is its big-endian word up to multiples of 0xFFFF. */
  lemma {:induction false} ByteOrder(b: seq<Byte>) returns (k: nat)
    ensures 256 * LittleSum(b) == Total(BigWords(b)) + 0xFFFF * k
  {
    if |b| < 2 {
      k := 0;
    } else {
      var k' := ByteOrder(b[2..]);
      k := k' + b[1];
    }
  }

  /**
    The deferred-carry sum of little-endian words is the byte-swapped one's complement sum of big-endian
    words, for any bytes.
   */
  lemma SameAsReference(b: seq<Byte>)
    ensures Swap(Fold(LittleSum(b))) == OnesSum(BigWords(b), 0)
  {
    var n := LittleSum(b);
    FoldIsNorm(n);
    SwapIsTimes256(Norm(n));
    OnesSumIsNorm(BigWords(b), 0);
    var k := ByteOrder(b);
    var total := Total(BigWords(b));
    if n > 0 {
      var q := (n - 1) / 0xFFFF;
      assert 256 * n == 256 * Norm(n) + 0xFFFF * (256 * q);
      NormShift(256 * Norm(n), 256 * q);
      BigIsPositive(b);
      NormShift(total, k);
    } else {
      assert total == 0;
    }
  }

  lemma {:induction false} BigIsPositive(b: seq<Byte>)
    requires LittleSum(b) > 0
    ensures Total(BigWords(b)) > 0
  {
    if |b| >= 2 && b[0] == 0 && b[1] == 0 { BigIsPositive(b[2..]); }
  }

  // ---------- Filling in a checksum ----------

  /** The sum of a packet is one's complement zero: the receiver accepts it. */
  predicate Verifies(b: seq<Byte>) {
    Fold(LittleSum(b)) == 0xFFFF
  }

  function Low(c: nat): Byte { c % 256 }

  function High(c: nat): Byte
    requires c < 0x10000
  {
    c / 256
  }

  /** b with the word at i replaced by c. */
  function WithWord(b: seq<Byte>, i: nat, c: nat): seq<Byte>
    requires i + 1 < |b| && c < 0x10000
  {
    b[i := Low(c)][i + 1 := High(c)]
  }

  lemma {:induction false} SumWithWord(b: seq<Byte>, i: nat, c: nat)
    requires i % 2 == 0 && i + 1 < |b| && c < 0x10000
    ensures LittleSum(WithWord(b, i, c)) + b[i] + 256 * (b[i + 1] as int) == LittleSum(b) + c
    decreases |b|
  {
    var b' := WithWord(b, i, c);
    if i == 0 {
      assert b'[2..] == b[2..];
    } else {
      SumWithWord(b[2..], i - 2, c);
      assert b'[2..] == WithWord(b[2..], i - 2, c);
    }
  }

  /** The complement of the sum, put where there was zero, makes the packet verify. */
  lemma FilledInVerifies(b: seq<Byte>, i: nat)
    requires i % 2 == 0 && i + 1 < |b| && b[i] == 0 && b[i + 1] == 0
    ensures Verifies(WithWord(b, i, 0xFFFF - Fold(LittleSum(b))))
  {
    SumWithWord(b, i, 0xFFFF - Fold(LittleSum(b)));
    PlusComplement(LittleSum(b));
    hide LittleSum, Fold, WithWord;
  }

  /** A number and the complement of its fold make one's complement zero. */
  lemma PlusComplement(n: nat)
    ensures Fold(n + (0xFFFF - Fold(n))) == 0xFFFF
  {
    FoldIsNorm(n);
    FoldIsNorm(n + (0xFFFF - Fold(n)));
    NormAdd(n, 0xFFFF - Fold(n));
    hide Fold;
  }

  lemma VerifiesIff(b: seq<Byte>)
    ensures Verifies(b) <==> LittleSum(b) > 0 && LittleSum(b) % 0xFFFF == 0
  {
    var n := LittleSum(b);
    FoldIsNorm(n);
    if n > 0 {
      var q, r := (n - 1) / 0xFFFF, (n - 1) % 0xFFFF;
      if r == 0xFFFE { Residue(q + 1, 0); } else { Residue(q, r + 1); }
    }
  }

  lemma {:induction false} Residue(q: nat, s: nat)
    requires s < 0xFFFF
    ensures (0xFFFF * q + s) % 0xFFFF == s
  {
    if q > 0 {
      Residue(q - 1, s);
      var x := 0xFFFF * (q - 1) + s;
      assert (x + 0xFFFF) % 0xFFFF == x % 0xFFFF;
      assert x + 0xFFFF == 0xFFFF * q + s;
    }
  }

  /** A packet that verifies still does after one word is changed exactly when the words stand for the same. */
  lemma ChangeIsDetected(b: seq<Byte>, i: nat, c: nat)
    requires i % 2 == 0 && i + 1 < |b| && c < 0x10000 && Verifies(b)
    ensures var b' := WithWord(b, i, c);
            Verifies(b') <==> LittleSum(b') > 0 && c % 0xFFFF == (b[i] + 256 * (b[i + 1] as int)) % 0xFFFF
  {
    var b' := WithWord(b, i, c);
    SumWithWord(b, i, c);
    VerifiesIff(b);
    VerifiesIff(b');
    Shifted(LittleSum(b'), b[i] + 256 * (b[i + 1] as int), c, LittleSum(b) / 0xFFFF);
  }

  lemma Shifted(n: nat, w: nat, c: nat, k: nat)
    requires n + w == 0xFFFF * k + c
    ensures n % 0xFFFF == 0 <==> c % 0xFFFF == w % 0xFFFF
  {
    if n % 0xFFFF == 0 {
      var j := n / 0xFFFF;
      assert c == w + 0xFFFF * (j - k);
    }
    if c % 0xFFFF == w % 0xFFFF {
      var j := c / 0xFFFF - w / 0xFFFF;
      assert n == 0xFFFF * (k + j);
    }
  }

  // ---------- The code ----------

  lemma {:induction false} SumAppend(x: seq<Byte>, y: seq<Byte>)
    requires |x| % 2 == 0
    ensures LittleSum(x + y) == LittleSum(x) + LittleSum(y)
    decreases |x|
  {
    if x == [] {
      assert x + y == y;
    } else {
      SumAppend(x[2..], y);
      assert (x + y)[2..] == x[2..] + y;
    }
  }

  lemma NextWord(b: seq<Byte>, i: nat)
    requires 2 * i + 1 < |b|
    ensures LittleSum(b[..2 * (i + 1)]) == LittleSum(b[..2 * i]) + (b[2 * i] + 256 * (b[2 * i + 1] as int))
  {
    SumAppend(b[..2 * i], b[2 * i..2 * i + 2]);
    assert b[..2 * (i + 1)] == b[..2 * i] + b[2 * i..2 * i + 2];
  }

  lemma LastByte(b: seq<Byte>)
    requires |b| % 2 == 1
    ensures LittleSum(b) == LittleSum(b[..|b| - 1]) + b[|b| - 1]
  {
    SumAppend(b[..|b| - 1], b[|b| - 1..]);
    assert b == b[..|b| - 1] + b[|b| - 1..];
  }

  lemma AddIn32(x: nat, y: nat)
    ensures (x % WORD32 + y) % WORD32 == (x + y) % WORD32
  {
    assert x == WORD32 * (x / WORD32) + x % WORD32;
    Multiple(x % WORD32 + y, x / WORD32);
  }

  lemma {:induction false} Multiple(x: nat, q: nat)
    ensures (x + WORD32 * q) % WORD32 == x % WORD32
  {
    if q > 0 {
      Multiple(x, q - 1);
      var y := x + WORD32 * (q - 1);
      assert (y + WORD32) % WORD32 == y % WORD32;
      assert y + WORD32 == x + WORD32 * q;
    }
  }

  /** Adds the words of len bytes from off on, in 32 bits. */
  method AddWords(data: array<Byte>, off: nat, len: nat) returns (sum: nat)
    requires off + len <= data.Length
    ensures sum == LittleSum(data[off..off + len]) % WORD32
  {
    ghost var all := data[off..off + len];
    sum := 0;
    assert LittleSum(all[..0]) == 0;
    hide LittleSum;
    var i := 0;
    while i < len / 2
      invariant 0 <= i <= len / 2 && sum == LittleSum(all[..2 * i]) % WORD32
    {
      var p := data[off + 2 * i] + 256 * (data[off + 2 * i + 1] as int);
      NextWord(all, i);
      AddIn32(LittleSum(all[..2 * i]), p);
      sum := (sum + p) % WORD32;
      i := i + 1;
    }
    if len % 2 == 1 {
      LastByte(all);
      AddIn32(LittleSum(all[..len - 1]), data[off + len - 1]);
      sum := (sum + data[off + len - 1]) % WORD32;
    } else {
      assert all[..len] == all;
    }
  }

  method FoldCarries(n: nat) returns (sum: nat)
    ensures sum == Fold(n)
  {
    sum := n;
    while sum / 0x10000 != 0
      invariant Fold(sum) == Fold(n)
      decreases sum
    {
      sum := sum % 0x10000 + sum / 0x10000;
    }
  }

  /** net_checksum */
  method NetChecksum(data: array<Byte>, off: nat, len: nat) returns (c: nat)
    requires off + len <= data.Length
    ensures c == 0xFFFF - Fold(LittleSum(data[off..off + len]) % WORD32) && c < 0x10000
  {
    var sum := AddWords(data, off, len);
    sum := FoldCarries(sum);
    c := 0xFFFF - sum;
  }

  /** ip_checksum_ok */
  method ChecksumOk(data: array<Byte>, off: nat) returns (ok: bool)
    requires off + IP_HEADER <= data.Length
    ensures ok == Verifies(data[off..off + IP_HEADER])
  {
    var sum := AddWords(data, off, IP_HEADER);
    SumIsSmall(data[off..off + IP_HEADER]);
    sum := FoldCarries(sum);
    ok := sum == 0xFFFF;
  }

  const IP_HEADER: nat := 20

  lemma {:induction false} SumIsSmall(b: seq<Byte>)
    ensures LittleSum(b) <= 0x8000 * (|b| + 1)
  {
    if |b| >= 2 { SumIsSmall(b[2..]); }
  }

  /** The header that ip_send builds, with the given checksum; numbers are big-endian. */
  function Header(len: nat, id: nat, proto: Byte, src: seq<Byte>, dst: seq<Byte>, checksum: nat): seq<Byte>
    requires len + IP_HEADER < 0x10000 && id < 0x10000 && |src| == 4 && |dst| == 4 && checksum < 0x10000
  {
    Fields(len, id, proto, Low(checksum), High(checksum)) + (src + dst)
  }

  function Fields(len: nat, id: nat, proto: Byte, low: Byte, high: Byte): seq<Byte>
    requires len + IP_HEADER < 0x10000 && id < 0x10000
  {
    [0x45, 0, High(len + IP_HEADER), Low(len + IP_HEADER), High(id), Low(id), 0, 0, 64, proto, low, high]
  }

  /** The header part of ip_send: the header it leaves in the buffer passes the receiver's check. */
  method BuildHeader(buf: array<Byte>, off: nat, len: nat, id: nat, proto: Byte, src: seq<Byte>, dst: seq<Byte>)
    requires off + IP_HEADER <= buf.Length && len + IP_HEADER < 0x10000 && id < 0x10000 && |src| == 4 && |dst| == 4
    modifies buf
    ensures exists c: nat :: c < 0x10000 && buf[off..off + IP_HEADER] == Header(len, id, proto, src, dst, c)
    ensures Verifies(buf[off..off + IP_HEADER])
    ensures buf[..off] == old(buf[..off]) && buf[off + IP_HEADER..] == old(buf[off + IP_HEADER..])
  {
    hide LittleSum, Low, High, Fold, Header;
    FillHeader(buf, off, len, id, proto, src, dst);
    ghost var zero := buf[off..off + IP_HEADER];
    var c := NetChecksum(buf, off, IP_HEADER);
    SumIsSmall(zero);
    FilledInVerifies(zero, 10);
    buf[off + 10], buf[off + 11] := Low(c), High(c);
    assert buf[off..off + IP_HEADER] == WithWord(zero, 10, c);
    ChecksumInHeader(len, id, proto, src, dst, c);
  }

  lemma ChecksumInHeader(len: nat, id: nat, proto: Byte, src: seq<Byte>, dst: seq<Byte>, c: nat)
    requires len + IP_HEADER < 0x10000 && id < 0x10000 && |src| == 4 && |dst| == 4 && c < 0x10000
    ensures |Header(len, id, proto, src, dst, 0)| == IP_HEADER
    ensures WithWord(Header(len, id, proto, src, dst, 0), 10, c) == Header(len, id, proto, src, dst, c)
  {
    hide Low, High;
  }

  method FillHeader(buf: array<Byte>, off: nat, len: nat, id: nat, proto: Byte, src: seq<Byte>, dst: seq<Byte>)
    requires off + IP_HEADER <= buf.Length && len + IP_HEADER < 0x10000 && id < 0x10000 && |src| == 4 && |dst| == 4
    modifies buf
    ensures buf[off..off + IP_HEADER] == Header(len, id, proto, src, dst, 0) && buf[off + 10] == 0 && buf[off + 11] == 0
    ensures buf[..off] == old(buf[..off]) && buf[off + IP_HEADER..] == old(buf[off + IP_HEADER..])
  {
    FillFields(buf, off, len, id, proto);
    CopyAddresses(buf, off, src, dst);
    assert Low(0) == 0 && High(0) == 0;
    hide Low, High;
    assert buf[off..off + IP_HEADER] == buf[off..off + 12] + buf[off + 12..off + IP_HEADER];
    assert buf[off..off + 12] == Fields(len, id, proto, 0, 0);
  }

  method FillFields(buf: array<Byte>, off: nat, len: nat, id: nat, proto: Byte)
    requires off + IP_HEADER <= buf.Length && len + IP_HEADER < 0x10000 && id < 0x10000
    modifies buf
    ensures buf[off] == 0x45 && buf[off + 1] == 0
    ensures buf[off + 2] == High(len + IP_HEADER) && buf[off + 3] == Low(len + IP_HEADER)
    ensures buf[off + 4] == High(id) && buf[off + 5] == Low(id) && buf[off + 6] == 0 && buf[off + 7] == 0
    ensures buf[off + 8] == 64 && buf[off + 9] == proto && buf[off + 10] == 0 && buf[off + 11] == 0
    ensures forall k :: 0 <= k < buf.Length && !(off <= k < off + 12) ==> buf[k] == old(buf[k])
  {
    hide Low, High;
    buf[off], buf[off + 1] := 0x45, 0;
    buf[off + 2], buf[off + 3] := High(len + IP_HEADER), Low(len + IP_HEADER);
    buf[off + 4], buf[off + 5] := High(id), Low(id);
    buf[off + 6], buf[off + 7] := 0, 0;
    buf[off + 8], buf[off + 9] := 64, proto;
    buf[off + 10], buf[off + 11] := 0, 0;
  }

  method CopyAddresses(buf: array<Byte>, off: nat, src: seq<Byte>, dst: seq<Byte>)
    requires off + IP_HEADER <= buf.Length && |src| == 4 && |dst| == 4
    modifies buf
    ensures forall k :: 0 <= k < buf.Length && !(off + 12 <= k < off + IP_HEADER) ==> buf[k] == old(buf[k])
    ensures buf[off + 12..off + IP_HEADER] == src + dst
  {
    var i := 0;
    while i < 4
      invariant 0 <= i <= 4
      invariant forall k :: 0 <= k < buf.Length && !(off + 12 <= k < off + IP_HEADER) ==> buf[k] == old(buf[k])
      invariant forall k :: 0 <= k < i ==> buf[off + 12 + k] == src[k] && buf[off + 16 + k] == dst[k]
    {
      buf[off + 12 + i] := src[i];
      buf[off + 16 + i] := dst[i];
      i := i + 1;
    }
  }

  const ECHO_REQUEST: Byte := 8
  const ECHO_REPLY: Byte := 0

  /**
    The rewrite of an echo request into its reply, in place; it writes the first four bytes whatever the length.
    Unless the 32-bit sum overflows the reply verifies exactly if it contains its checksum, or contains the
    first byte of it behind a code of 255. All but the type and the checksum is as it was.
   */
  method EchoReply(pkt: array<Byte>, len: nat) returns (replied: bool)
    requires 4 <= pkt.Length && len <= pkt.Length
    modifies pkt
    ensures replied == (old(pkt[0]) == ECHO_REQUEST)
    ensures !replied ==> pkt[..] == old(pkt[..])
    ensures replied ==> pkt[0] == ECHO_REPLY && pkt[1] == old(pkt[1]) && pkt[4..] == old(pkt[4..])
    ensures replied && LittleSum(old(pkt[..len])) < WORD32 ==>
              (Verifies(pkt[..len]) <==> len >= 4 || (len == 3 && old(pkt[1]) == 255))
  {
    hide LittleSum, Low, High, Fold;
    if pkt[0] != ECHO_REQUEST { return false; }
    pkt[0] := ECHO_REPLY;
    pkt[2], pkt[3] := 0, 0;
    ghost var zero := pkt[..len];
    var c := NetChecksum(pkt, 0, len);
    assert pkt[0..0 + len] == zero;
    pkt[2], pkt[3] := Low(c), High(c);
    if len < 4 {
      ShortReply(zero, pkt[..len], c);
    } else {
      assert pkt[..len] == WithWord(zero, 2, c);
      if LittleSum(old(pkt[..len])) < WORD32 {
        Lowered(old(pkt[..len]), zero);
        FilledInVerifies(zero, 2);
      }
    }
    replied := true;
  }

  /** A reply that is too short to contain its checksum. */
  lemma ShortReply(zero: seq<Byte>, b: seq<Byte>, c: nat)
    requires |zero| == |b| < 4 && c == 0xFFFF - Fold(LittleSum(zero) % WORD32) && c < 0x10000
    requires forall i :: 0 <= i < |b| ==> zero[i] == (if i == 1 then b[1] else 0)
    requires forall i :: 0 <= i < |b| && i != 1 ==> b[i] == if i == 2 then Low(c) else 0
    ensures Verifies(b) <==> |b| == 3 && b[1] == 255
  {
    if |b| == 3 {
      assert LittleSum(zero[2..]) == 0 && LittleSum(b[2..]) == b[2];
      assert LittleSum(zero) == 256 * (b[1] as int);
      assert LittleSum(b) == 256 * (b[1] as int) + b[2];
      hide LittleSum;
      assert c == 256 * (255 - b[1] as int) + 255;
      assert Low(c) == 255;
    } else if |b| == 2 {
      assert LittleSum(b[2..]) == 0;
    }
  }

  /** Clearing the type and the checksum does not raise the sum. */
  lemma Lowered(b: seq<Byte>, zero: seq<Byte>)
    requires |b| == |zero| >= 4 && zero == b[0 := 0][2 := 0][3 := 0]
    ensures LittleSum(zero) <= LittleSum(b)
  {
    assert zero[2..][2..] == b[2..][2..];
  }

  /** What verifies for the code has one's complement sum 0xFFFF by the reference. */
  lemma VerifiesByReference(b: seq<Byte>)
    ensures Verifies(b) <==> OnesSum(BigWords(b), 0) == 0xFFFF
  {
    SameAsReference(b);
  }
}
