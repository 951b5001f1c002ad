/** The TCP checksum: a sum that is folded after every word, against the one's-complement sum of RFC 1071 section 1, and
    what the senders put on the wire (RFC 9293 section 3.1; kernel/net/tcp.c). */
module Checksum {
  import opened Bytes

  const WORD := 0x1_0000
  const ONES := 0xFFFF

  // ---------- the one's-complement sum ----------

  /** The sum of the first n 16-bit words of some bytes. */
  function WordsTo(s: seq<byte>, n: nat): nat
    requires 2 * n <= |s|
  {
    if n == 0 then 0 else WordsTo(s, n - 1) + U16(s[2 * n - 2], s[2 * n - 1])
  }

  /** The sum of the words, an odd last byte taken as the high half of a word. */
  function WordSum(s: seq<byte>): nat {
    WordsTo(s, |s| / 2) + if |s| % 2 == 1 then U16(s[|s| - 1], 0) else 0
  }

  /** The carries are added in at the end, as often as there are any. */
  function EndFold(total: nat): (r: nat)
    ensures r <= ONES
  {
    if total <= ONES then total else EndFold(total / WORD + total % WORD)
  }

  /** The carry is added in after each word. */
  function AddFold(sum: nat, word: nat): nat {
    var t := sum + word;
    if t > ONES then t / WORD + t % WORD else t
  }

  /** The residue modulo 0xFFFF, with 0xFFFF for 0 unless nothing was added. */
  function Residue(total: nat): nat {
    if total == 0 then 0 else (total - 1) % ONES + 1
  }

  lemma {:induction false} EndFoldIsResidue(total: nat)
    ensures EndFold(total) == Residue(total)
  {
    if total > ONES {
      var high, low := total / WORD, total % WORD;
      assert total - 1 == high * ONES + (high + low - 1);
      Periodic(high + low - 1, high);
      EndFoldIsResidue(high + low);
    }
  }

  lemma {:induction false} Periodic(x: nat, q: nat)
    ensures (q * ONES + x) % ONES == x % ONES
  {
    if q > 0 {
      Periodic(x, q - 1);
      assert q * ONES + x == (q - 1) * ONES + x + ONES;
    }
  }

  lemma SmallMod(x: nat)
    requires x < 2 * ONES
    ensures x % ONES == if x < ONES then x else x - ONES
  {
  }

  lemma ResidueAdd(total: nat, word: nat)
    requires word <= ONES
    ensures AddFold(Residue(total), word) == Residue(total + word)
  {
    if total == 0 {
      if word > 0 { SmallMod(word - 1); }
    } else {
      var q, r := (total - 1) / ONES, (total - 1) % ONES;
      assert total + word - 1 == q * ONES + (r + word);
      Periodic(r + word, q);
      SmallMod(r + word);
    }
  }

  /** Folding after every word keeps the sum within 16 bits, and it stays what folding at the end gives. */
  lemma FoldEachIsFoldLast(total: nat, word: nat)
    requires word <= ONES
    ensures AddFold(EndFold(total), word) == EndFold(total + word) <= ONES
  {
    EndFoldIsResidue(total);
    EndFoldIsResidue(total + word);
    ResidueAdd(total, word);
  }

  /** Adding the complement of the folded sum gives all ones. */
  lemma ComplementCompletes(total: nat)
    ensures EndFold(total + (ONES - EndFold(total))) == ONES
  {
    EndFoldIsResidue(total);
    EndFoldIsResidue(total + (ONES - EndFold(total)));
    if total > 0 {
      var q, r := (total - 1) / ONES, (total - 1) % ONES;
      assert total + (ONES - EndFold(total)) - 1 == q * ONES + (ONES - 1);
      Periodic(ONES - 1, q);
    }
  }

  /** Nothing else does, up to the two forms of zero. */
  lemma OnlyComplementCompletes(total: nat, c: nat)
    requires c <= ONES && EndFold(total + c) == ONES && total > 0
    ensures c == ONES - EndFold(total) || (c == ONES && EndFold(total) == ONES)
  {
    EndFoldIsResidue(total);
    EndFoldIsResidue(total + c);
    var q, r := (total - 1) / ONES, (total - 1) % ONES;
    assert total + c - 1 == q * ONES + (r + c);
    Periodic(r + c, q);
  }

  lemma {:induction false} WordsOfPrefix(s: seq<byte>, t: seq<byte>, n: nat)
    requires 2 * n <= |s| && 2 * n <= |t| && forall i :: 0 <= i < 2 * n ==> s[i] == t[i]
    ensures WordsTo(s, n) == WordsTo(t, n)
  {
    if n > 0 { WordsOfPrefix(s, t, n - 1); }
  }

  lemma {:induction false} WordsSplit(a: seq<byte>, b: seq<byte>, m: nat, n: nat)
    requires |a| == 2 * m && 2 * n <= |b|
    ensures WordsTo(a + b, m + n) == WordsTo(a, m) + WordsTo(b, n)
    decreases n
  {
    if n == 0 {
      WordsOfPrefix(a + b, a, m);
    } else {
      WordsSplit(a, b, m, n - 1);
      assert (a + b)[2 * (m + n) - 2] == b[2 * n - 2] && (a + b)[2 * (m + n) - 1] == b[2 * n - 1];
    }
  }

  lemma WordSumSplit(a: seq<byte>, b: seq<byte>)
    requires |a| % 2 == 0
    ensures WordSum(a + b) == WordSum(a) + WordSum(b)
  {
    WordsSplit(a, b, |a| / 2, |b| / 2);
    assert |a + b| / 2 == |a| / 2 + |b| / 2;
  }

  lemma WordSumPair(x: byte, y: byte)
    ensures WordSum([x, y]) == U16(x, y)
  {
    assert WordsTo([x, y], 1) == WordsTo([x, y], 0) + U16(x, y);
  }

  /** The sum word by word from the front, high byte first. */
  lemma WordSumFront(s: seq<byte>)
    ensures s == [] ==> WordSum(s) == 0
    ensures |s| == 1 ==> WordSum(s) == 256 * (s[0] as int)
    ensures |s| >= 2 ==> WordSum(s) == 256 * (s[0] as int) + s[1] + WordSum(s[2..])
  {
    if |s| >= 2 {
      assert s == [s[0], s[1]] + s[2..];
      WordSumSplit([s[0], s[1]], s[2..]);
      WordSumPair(s[0], s[1]);
    }
  }

  /** A sum folds to all ones exactly if it is a positive multiple of 0xFFFF. */
  lemma AllOnes(total: nat)
    ensures EndFold(total) == 0xFFFF <==> total > 0 && total % 0xFFFF == 0
  {
    EndFoldIsResidue(total);
    if total > 0 {
      var q, r := (total - 1) / ONES, (total - 1) % ONES;
      assert total == q * ONES + (r + 1);
      Periodic(r + 1, q);
      SmallMod(r + 1);
    }
  }

  // ---------- calculate_tcp_checksum ----------

  /** One of its loops: the first words of s. */
  method SumWords(start: nat, s: seq<byte>, words: nat, ghost total: nat) returns (sum: nat)
    requires start == EndFold(total) && 2 * words <= |s|
    ensures sum == EndFold(total + WordsTo(s, words)) <= ONES
  {
    sum := start;
    for i := 0 to words
      invariant sum == EndFold(total + WordsTo(s, i)) <= ONES
    {
      FoldEachIsFoldLast(total + WordsTo(s, i), U16(s[2 * i], s[2 * i + 1]));
      sum := sum + U16(s[2 * i], s[2 * i + 1]);
      if sum > ONES {
        sum := sum / WORD + sum % WORD;
      }
    }
  }

  /** calculate_tcp_checksum over the pseudo-header p, the header with its options h and the payload d. The number of
      payload words is kept in 16 bits. */
  method CalculateTcpChecksum(p: seq<byte>, h: seq<byte>, optionsLength: nat, d: seq<byte>) returns (checksum: nat)
    requires |p| == 12 && |h| >= 20 + optionsLength && |d| < 2 * WORD
    ensures checksum == ONES - EndFold(WordSum(p) + WordSum(h[..20 + optionsLength / 2 * 2]) + WordSum(d))
  {
    var sum := SumWords(0, p, 6, 0);
    var words := 10 + optionsLength / 2;
    sum := SumWords(sum, h, words, WordSum(p));
    WordsOfPrefix(h, h[..2 * words], words);
    sum := SumPayload(sum, d, WordSum(p) + WordSum(h[..2 * words]));
    checksum := ONES - sum;
  }

  /** The words of the payload, and its odd last byte. */
  method SumPayload(start: nat, d: seq<byte>, ghost total: nat) returns (sum: nat)
    requires start == EndFold(total) && |d| < 2 * WORD
    ensures sum == EndFold(total + WordSum(d))
  {
    var dWords := |d| / 2;
    sum := SumWords(start, d, dWords, total);
    if dWords * 2 != |d| {
      var last := d[dWords * 2];
      FoldEachIsFoldLast(total + WordsTo(d, dWords), U16(last, 0));
      sum := sum + U16(last, 0);
      if sum > ONES {
        sum := sum / WORD + sum % WORD;
      }
    }
  }

  // ---------- the senders ----------

  const PROTOCOL_TCP: byte := 6
  const HEADER := 20
  const CHECKSUM_AT := 16

  function Bytes16(n: nat): (s: seq<byte>)
    requires n < WORD
    ensures |s| == 2 && WordSum(s) == n
  {
    WordSumPair(n / 256, n % 256);
    [n / 256, n % 256]
  }

  /** The pseudo-header, in network order. */
  function PseudoHeader(source: seq<byte>, destination: seq<byte>, length: nat): (s: seq<byte>)
    requires |source| == |destination| == 4 && length < WORD
    ensures |s| == 12
  {
    source + destination + [0, PROTOCOL_TCP] + Bytes16(length)
  }

  /** Its twelve bytes: the two addresses, a zero byte, the protocol number of TCP and the length of the segment. */
  lemma PseudoBytes(source: seq<byte>, destination: seq<byte>, length: nat)
    requires |source| == |destination| == 4 && length < 0x1_0000
    ensures var p := PseudoHeader(source, destination, length);
            |p| == 12 && p[..4] == source && p[4..8] == destination && p[8] == 0 && p[9] == 6 &&
            p[10] == length / 256 && p[11] == length % 256
  {
  }

  lemma PseudoSum(source: seq<byte>, destination: seq<byte>, length: nat)
    requires |source| == |destination| == 4 && length < 0x1_0000
    ensures WordSum(PseudoHeader(source, destination, length))
         == WordSum(source) + WordSum(destination) + 6 + length
  {
    hide WordSum;
    WordSumSplit(source + destination + [0, PROTOCOL_TCP], Bytes16(length));
    WordSumSplit(source + destination, [0, PROTOCOL_TCP]);
    WordSumSplit(source, destination);
    WordSumPair(0, PROTOCOL_TCP);
  }

  /** A segment checks: with its pseudo-header it sums to all ones. */
  predicate Checks(source: seq<byte>, destination: seq<byte>, segment: seq<byte>)
    requires |source| == |destination| == 4 && |segment| < WORD
  {
    EndFold(WordSum(PseudoHeader(source, destination, |segment|) + segment)) == ONES
  }

  /** What a receiver adds up: the addresses, the protocol number 6, the length and the words of the segment. */
  lemma ChecksSum(source: seq<byte>, destination: seq<byte>, segment: seq<byte>)
    requires |source| == |destination| == 4 && |segment| < 0x1_0000
    ensures Checks(source, destination, segment) <==>
            EndFold(WordSum(source) + WordSum(destination) + 6 + |segment| + WordSum(segment)) == 0xFFFF
  {
    hide EndFold, WordSum, PseudoHeader;
    PseudoSum(source, destination, |segment|);
    WordSumSplit(PseudoHeader(source, destination, |segment|), segment);
  }

  /** A header with its checksum filled in. */
  function Inserted(h: seq<byte>, checksum: nat): (r: seq<byte>)
    requires |h| >= HEADER && checksum < WORD
    ensures |r| == |h|
  {
    h[..CHECKSUM_AT] + Bytes16(checksum) + h[CHECKSUM_AT + 2..]
  }

  lemma InsertedSum(h: seq<byte>, checksum: nat)
    requires |h| >= HEADER && checksum < WORD && h[CHECKSUM_AT] == 0 && h[CHECKSUM_AT + 1] == 0
    ensures WordSum(Inserted(h, checksum)) == WordSum(h) + checksum
  {
    var front, back := h[..CHECKSUM_AT], h[CHECKSUM_AT + 2..];
    assert h == front + [0, 0] + back;
    WordSumSplit(front + [0, 0], back);
    WordSumSplit(front, [0, 0]);
    WordSumPair(0, 0);
    WordSumSplit(front + Bytes16(checksum), back);
    WordSumSplit(front, Bytes16(checksum));
  }

  /** What filling in the checksum achieves. */
  lemma SegmentChecks(source: seq<byte>, destination: seq<byte>, h: seq<byte>, d: seq<byte>, checksum: nat)
    requires |source| == |destination| == 4 && |h| >= HEADER && |h| % 2 == 0 && |h| + |d| < WORD
    requires h[CHECKSUM_AT] == 0 && h[CHECKSUM_AT + 1] == 0
    requires checksum == ONES - EndFold(WordSum(PseudoHeader(source, destination, |h| + |d|)) + WordSum(h) + WordSum(d))
    ensures 0 <= checksum < WORD && Checks(source, destination, Inserted(h, checksum) + d)
    ensures var segment := Inserted(h, checksum) + d;
            EndFold(WordSum(source) + WordSum(destination) + 6 + |segment| + WordSum(segment)) == 0xFFFF
  {
    var p, filled := PseudoHeader(source, destination, |h| + |d|), Inserted(h, checksum);
    InsertedSum(h, checksum);
    assert |filled + d| == |h| + |d|;
    Completed(p, filled, d, WordSum(h), checksum);
    ChecksSum(source, destination, filled + d);
  }

  lemma Completed(p: seq<byte>, filled: seq<byte>, d: seq<byte>, sum: nat, checksum: nat)
    requires |p| % 2 == 0 && |filled| % 2 == 0 && WordSum(filled) == sum + checksum
    requires checksum == ONES - EndFold(WordSum(p) + sum + WordSum(d))
    ensures EndFold(WordSum(p + (filled + d))) == ONES
  {
    WordSumSplit(filled, d);
    WordSumSplit(p, filled + d);
    ComplementCompletes(WordSum(p) + sum + WordSum(d));
  }

  /** Stores a checksum in network order. */
  method StoreChecksum(header: array<byte>, checksum: nat)
    requires header.Length >= HEADER && checksum < WORD
    modifies header
    ensures header[..] == Inserted(old(header[..]), checksum)
  {
    header[CHECKSUM_AT] := checksum / 256;
    header[CHECKSUM_AT + 1] := checksum % 256;
  }

  /** tcp_send_header_and_data. The data must fit the buffer of 2048 bytes; the checksum field starts as zero. */
  method SendHeaderAndData(source: seq<byte>, destination: seq<byte>, header: array<byte>,
                           data: seq<byte>)
    returns (segment: seq<byte>)
    requires |source| == |destination| == 4 && header.Length == HEADER && HEADER + |data| <= 2048
    requires header[16] == 0 && header[17] == 0
    modifies header
    ensures segment == header[..] + data
    ensures EndFold(WordSum(source) + WordSum(destination) + 6 + |segment| + WordSum(segment)) == 0xFFFF
    ensures forall i :: 0 <= i < header.Length && i != 16 && i != 17 ==> header[i] == old(header[i])
  {
    var pseudo := PseudoHeader(source, destination, HEADER + |data|);
    ghost var h := header[..];
    var checksum := CalculateTcpChecksum(pseudo, header[..], 0, data);
    assert h[..20] == h;
    SegmentChecks(source, destination, h, data, checksum);
    StoreChecksum(header, checksum);
    segment := header[..] + data;
  }

  /** tcp_send_header */
  method SendHeader(source: seq<byte>, destination: seq<byte>, header: array<byte>) returns (segment: seq<byte>)
    requires |source| == |destination| == 4 && header.Length == HEADER && header[16] == 0 && header[17] == 0
    modifies header
    ensures segment == header[..]
    ensures EndFold(WordSum(source) + WordSum(destination) + 6 + |segment| + WordSum(segment)) == 0xFFFF
    ensures forall i :: 0 <= i < header.Length && i != 16 && i != 17 ==> header[i] == old(header[i])
  {
    var pseudo := PseudoHeader(source, destination, HEADER);
    ghost var h := header[..];
    var checksum := CalculateTcpChecksum(pseudo, header[..], 0, []);
    assert h[..20] == h && WordSum([]) == 0;
    SegmentChecks(source, destination, h, [], checksum);
    StoreChecksum(header, checksum);
    segment := header[..];
    assert segment + [] == segment;
  }

  /** tcp_send_header_and_options, of a header with room for 32 bytes of options. An odd last byte of the options is
      left out of the sum: the segment checks exactly if there is none or it is zero. */
  method SendHeaderAndOptions(source: seq<byte>, destination: seq<byte>, payload: array<byte>,
                              optionsSize: nat)
    returns (segment: seq<byte>)
    requires |source| == |destination| == 4 && payload.Length == HEADER + 32 && optionsSize <= 32
    requires payload[16] == 0 && payload[17] == 0
    modifies payload
    ensures segment == payload[..20 + optionsSize]
    ensures EndFold(WordSum(source) + WordSum(destination) + 6 + |segment| + WordSum(segment)) == 0xFFFF <==>
            optionsSize % 2 == 0 || payload[20 + optionsSize - 1] == 0
    ensures forall i :: 0 <= i < payload.Length && i != 16 && i != 17 ==> payload[i] == old(payload[i])
  {
    var pseudo := PseudoHeader(source, destination, HEADER + optionsSize);
    ghost var h := payload[..];
    var checksum := CalculateTcpChecksum(pseudo, payload[..], optionsSize, []);
    assert WordSum([]) == 0;
    hide EndFold, WordSum;
    StoreChecksum(payload, checksum);
    OptionsCheck(source, destination, h, optionsSize, checksum);
    segment := payload[..HEADER + optionsSize];
    assert payload[..][HEADER + optionsSize - 1] == h[HEADER + optionsSize - 1];
  }

  lemma InsertedPrefix(h: seq<byte>, checksum: nat, n: nat)
    requires HEADER <= n <= |h| && checksum < WORD
    ensures Inserted(h, checksum)[..n] == Inserted(h[..n], checksum)
    ensures n < |h| ==> Inserted(h, checksum)[..n + 1] == Inserted(h[..n], checksum) + [h[n]]
  {
    FilledPrefix(h, Bytes16(checksum), CHECKSUM_AT, n);
  }

  lemma FilledPrefix(h: seq<byte>, c: seq<byte>, at: nat, n: nat)
    requires at + |c| <= n <= |h|
    ensures (h[..at] + c + h[at + |c|..])[..n] == h[..n][..at] + c + h[..n][at + |c|..]
    ensures n < |h| ==> (h[..at] + c + h[at + |c|..])[..n + 1] == h[..n][..at] + c + h[..n][at + |c|..] + [h[n]]
  {
  }

  lemma OptionsCheck(source: seq<byte>, destination: seq<byte>, h: seq<byte>, optionsSize: nat, checksum: nat)
    requires |source| == |destination| == 4 && |h| == HEADER + 32 && optionsSize <= 32 && checksum < WORD
    requires h[CHECKSUM_AT] == 0 && h[CHECKSUM_AT + 1] == 0
    requires var n := HEADER + optionsSize / 2 * 2;
             checksum == ONES - EndFold(WordSum(PseudoHeader(source, destination, HEADER + optionsSize)) +
                                        WordSum(h[..n]))
    ensures var segment := Inserted(h, checksum)[..HEADER + optionsSize];
            EndFold(WordSum(source) + WordSum(destination) + 6 + |segment| + WordSum(segment)) == 0xFFFF <==>
            optionsSize % 2 == 0 || h[HEADER + optionsSize - 1] == 0
  {
    hide EndFold, WordSum;
    ChecksSum(source, destination, Inserted(h, checksum)[..HEADER + optionsSize]);
    var p, n := PseudoHeader(source, destination, HEADER + optionsSize), HEADER + optionsSize / 2 * 2;
    assert n % 2 == 0 && n <= HEADER + optionsSize <= n + 1 by { Halves(optionsSize); }
    EvenPart(p, h[..n], checksum);
    SentParts(h, n, HEADER + optionsSize, checksum);
    var even := Inserted(h[..n], checksum);
    if optionsSize % 2 == 1 {
      OddPart(p, even, h[n]);
    } else {
      assert even + [] == even;
    }
  }

  lemma Halves(n: nat)
    ensures n / 2 * 2 % 2 == 0 && n / 2 * 2 == if n % 2 == 0 then n else n - 1
  {
  }

  /** What is sent is the even part with its checksum, and the odd byte if there is one. */
  lemma SentParts(h: seq<byte>, n: nat, size: nat, checksum: nat)
    requires HEADER <= n <= size <= n + 1 && size <= |h| && checksum < WORD
    ensures Inserted(h, checksum)[..size] == Inserted(h[..n], checksum) + (if size == n then [] else [h[n]])
  {
    InsertedPrefix(h, checksum, n);
    assert Inserted(h[..n], checksum) + [] == Inserted(h[..n], checksum);
  }

  lemma EvenPart(p: seq<byte>, h: seq<byte>, checksum: nat)
    requires |p| % 2 == 0 && |h| % 2 == 0 && |h| >= HEADER && checksum < WORD && h[CHECKSUM_AT] == 0 &&
             h[CHECKSUM_AT + 1] == 0
    requires checksum == ONES - EndFold(WordSum(p) + WordSum(h))
    ensures EndFold(WordSum(p + Inserted(h, checksum))) == ONES
  {
    InsertedSum(h, checksum);
    assert WordSum([]) == 0;
    var filled := Inserted(h, checksum);
    assert filled + [] == filled;
    Completed(p, filled, [], WordSum(h), checksum);
  }

  lemma OddPart(p: seq<byte>, s: seq<byte>, last: byte)
    requires |p| % 2 == 0 && |s| % 2 == 0 && EndFold(WordSum(p + s)) == ONES
    ensures EndFold(WordSum(p + (s + [last]))) == ONES <==> last == 0
  {
    assert p + (s + [last]) == p + s + [last];
    var all := p + s + [last];
    WordsOfPrefix(all, p + s, |p + s| / 2);
    assert WordSum(all) == WordSum(p + s) + U16(last, 0);
    OddByte(WordSum(p + s), last);
  }

  /** A sum of all ones stays so only if nothing is added. */
  lemma OddByte(total: nat, last: byte)
    requires EndFold(total) == ONES
    ensures EndFold(total + U16(last, 0)) == ONES <==> last == 0
  {
    FoldEachIsFoldLast(total, U16(last, 0));
  }
}
