/** From a pool's notify to a submitted share: the coinbase layout of stratum_notify, the Merkle fold and
    header of stratum_gen_work, the submit request, and the pool that rebuilds the header from it. */
module Stratum {
  import opened Bytes
  import opened Hex
  import opened Civiclight
  import opened Extranonce
  import opened Header
  import opened Scan
  import opened Target
  import opened Work
  import opened Wrappers

  /** The parameters of mining.notify that reach the header, as the hex strings the pool sends. */
  datatype Notify = Notify(jobId: seq<Byte>, prevhash: seq<Byte>, coinb1: seq<Byte>, coinb2: seq<Byte>,
                           merkle: seq<seq<Byte>>, version: seq<Byte>, nbits: seq<Byte>, ntime: seq<Byte>)

  predicate HexOf(s: seq<Byte>, len: nat) {
    |s| == 2 * len && AllHex(s)
  }

  /** What a pool that follows the protocol sends. */
  predicate WellFormed(m: Notify) {
    HexOf(m.prevhash, 32) && HexOf(m.version, 4) && HexOf(m.nbits, 4) && HexOf(m.ntime, 4)
    && HexOf(m.coinb1, |m.coinb1| / 2) && HexOf(m.coinb2, |m.coinb2| / 2)
    && forall i :: 0 <= i < |m.merkle| ==> HexOf(m.merkle[i], 32)
  }

  lemma WellFormedExists() returns (m: Notify)
    ensures WellFormed(m)
  {
    var zeros := (n: nat) => seq(n, _ => '0' as int);
    m := Notify([], zeros(64), [], [], [], zeros(8), zeros(8), zeros(8));
  }

  // ----- the header a pool and a miner agree on -----

  ghost function Sha256d(p: Primitives, m: seq<Byte>): (h: seq<Byte>)
    requires Civiclight.Usable(p)
    ensures |h| == 32
  {
    Sha(p, Sha(p, m))
  }

  /** The Merkle root above a coinbase and its branches. */
  ghost function MerkleRoot(p: Primitives, coinbase: seq<Byte>, branches: seq<seq<Byte>>): (h: seq<Byte>)
    requires Civiclight.Usable(p)
    ensures |h| == 32
    decreases |branches|
  {
    if branches == [] then Sha256d(p, coinbase)
    else Sha256d(p, MerkleRoot(p, coinbase, branches[..|branches| - 1]) + branches[|branches| - 1])
  }

  function DecodeAll(m: seq<seq<Byte>>): (r: seq<seq<Byte>>)
    requires forall i :: 0 <= i < |m| ==> HexOf(m[i], 32)
    ensures |r| == |m|
  {
    if m == [] then []
    else
      var last := m[|m| - 1];
      assert HexOf(last, 32);
      DecodeAll(m[..|m| - 1]) + [Decode(last)]
  }

  function Coinbase(m: Notify, xnonce1: seq<Byte>, xnonce2: seq<Byte>): seq<Byte>
    requires WellFormed(m)
  {
    Decode(m.coinb1) + xnonce1 + xnonce2 + Decode(m.coinb2)
  }

  /** Every 4-byte word reversed. */
  function SwapWords(s: seq<Byte>): (r: seq<Byte>)
    ensures |r| <= |s| < |r| + 4 && |r| % 4 == 0
  {
    if |s| < 4 then [] else Reverse4(s[..4]) + SwapWords(s[4..])
  }

  /** mining.submit: the four strings the pool gets back. */
  datatype Submit = Submit(jobId: seq<Byte>, xnonce2: seq<Byte>, ntime: seq<Byte>, nonce: seq<Byte>)

  /** The header a pool rebuilds from its own job and a submission. */
  ghost function PoolHeader(p: Primitives, m: Notify, xnonce1: seq<Byte>, s: Submit): seq<Byte>
    requires Civiclight.Usable(p) && WellFormed(m) && HexOf(s.ntime, 4) && HexOf(s.nonce, 4)
    requires HexOf(s.xnonce2, |s.xnonce2| / 2)
  {
    SwapWords(Decode(m.version)) + SwapWords(Decode(m.prevhash))
    + MerkleRoot(p, Coinbase(m, xnonce1, Decode(s.xnonce2)), DecodeAll(m.merkle))
    + SwapWords(Decode(s.ntime)) + SwapWords(Decode(m.nbits)) + SwapWords(Decode(s.nonce))
  }

  /** The submission is readable and the pool rebuilds `header` from it. */
  ghost predicate PoolSees(p: Primitives, m: Notify, xnonce1: seq<Byte>, s: Submit, header: seq<Byte>)
    requires Civiclight.Usable(p) && WellFormed(m)
  {
    s.jobId == m.jobId && HexOf(s.ntime, 4) && HexOf(s.nonce, 4) && HexOf(s.xnonce2, |s.xnonce2| / 2)
    && PoolHeader(p, m, xnonce1, s) == header
  }

  // ----- stratum_notify -----

  lemma Fields(m: Notify)
    ensures WellFormed(m) ==>
      && HexOf(m.prevhash, 32) && HexOf(m.version, 4) && HexOf(m.nbits, 4) && HexOf(m.ntime, 4)
      && |m.prevhash| == 64 && |m.version| == |m.nbits| == |m.ntime| == 8
      && |Decode(m.coinb1)| == |m.coinb1| / 2
      && forall i :: 0 <= i < |m.merkle| ==> HexOf(m.merkle[i], 32) && |m.merkle[i]| == 64
  {
  }

  /** A fixed-size field filled by hex2bin, whose verdict the caller ignores. */
  method HexField(s: seq<Byte>, len: nat) returns (b: seq<Byte>)
    ensures |b| == len
    ensures HexOf(s, len) ==> b == Decode(s)
  {
    var buf := new Byte[len](_ => 0);
    AcceptedIfHex(s);
    var ok := Hex2Bin(buf, s, len);
    if HexOf(s, len) {
      PairsOfDigits(s);
    }
    b := buf[..];
    assert buf[..len] == buf[..];
  }

  lemma AcceptedIfHex(s: seq<Byte>)
    ensures AllHex(s) ==> Accepted(s)
  {
    AcceptedIsExactUnlessFooled(s);
    if AllHex(s) {
      assert forall i :: 0 <= i < |s| ==> IsHexDigit(s[i]);
    }
  }

  // ----- words and bytes -----

  function LeWords(s: seq<Byte>): (w: seq<U32>)
    ensures 4 * |w| <= |s| < 4 * |w| + 4
  {
    if |s| < 4 then [] else [FromLe32(s[..4])] + LeWords(s[4..])
  }

  function BeWords(s: seq<Byte>): (w: seq<U32>)
    ensures 4 * |w| <= |s| < 4 * |w| + 4
  {
    if |s| < 4 then [] else [FromBe32(s[..4])] + BeWords(s[4..])
  }

  lemma {:induction false} Be32sAppend(a: seq<U32>, b: seq<U32>)
    ensures Be32s(a + b) == Be32s(a) + Be32s(b)
  {
    if b == [] {
      assert a + b == a;
    } else {
      assert (a + b)[..|a + b| - 1] == a + b[..|b| - 1];
      Be32sAppend(a, b[..|b| - 1]);
    }
  }

  lemma Be32sOne(x: U32)
    ensures Be32s([x]) == Be32(x)
  {
    assert [x][..0] == [];
  }

  lemma {:induction false} LeWordsSwap(s: seq<Byte>)
    ensures Be32s(LeWords(s)) == SwapWords(s)
  {
    if |s| >= 4 {
      var x := FromLe32(s[..4]);
      LeWordsSwap(s[4..]);
      Be32sAppend([x], LeWords(s[4..]));
      Be32sOne(x);
      BytesRoundTrip(s[..4]);
      WordsRoundTrip(x);
      assert Reverse4(Reverse4(Be32(x))) == Be32(x);
    }
  }

  lemma {:induction false} BeWordsKeep(s: seq<Byte>)
    requires |s| % 4 == 0
    ensures Be32s(BeWords(s)) == s
  {
    if |s| >= 4 {
      var x := FromBe32(s[..4]);
      BeWordsKeep(s[4..]);
      Be32sAppend([x], BeWords(s[4..]));
      Be32sOne(x);
      BytesRoundTrip(s[..4]);
    }
  }

  /** The hashed header is the big-endian image of words 0 to 18 and the plain nonce. */
  lemma HeaderImage(data: seq<U32>, n: U32)
    requires |data| >= 20
    ensures HeaderAt(data, false, n) == Be32s(data[..19]) + Le32(n)
  {
    var e := Edata(data, false)[19 := n];
    SwappedImage(data, e, 19);
    assert e[..20][..19] == e[..19] && e[..20] == e;
  }

  lemma {:induction false} SwappedImage(data: seq<U32>, e: seq<U32>, k: nat)
    requires k <= |data| && k <= |e| && forall i :: 0 <= i < k ==> e[i] == Bswap32(data[i])
    ensures Le32s(e[..k]) == Be32s(data[..k])
  {
    if k > 0 {
      SwappedImage(data, e, k - 1);
      assert e[..k][..k - 1] == e[..k - 1] && data[..k][..k - 1] == data[..k - 1];
      Bswap32Facts(data[k - 1]);
    }
  }

  // ----- the work of a job -----

  /** data[0] to data[47] as std_build_block_header leaves them. */
  ghost function WorkData(p: Primitives, m: Notify, xnonce1: seq<Byte>, xnonce2: seq<Byte>): (d: seq<U32>)
    requires Civiclight.Usable(p) && WellFormed(m)
    ensures |d| == 48
  {
    FieldWords(m.version, 1) + FieldWords(m.prevhash, 8)
    + BeWords(MerkleRoot(p, Coinbase(m, xnonce1, xnonce2), DecodeAll(m.merkle)))
    + FieldWords(m.ntime, 1) + FieldWords(m.nbits, 1)
    + AfterHeader()
  }

  /** The nonce word and the padding of the header as a SHA-256 message. */
  function AfterHeader(): (w: seq<U32>)
    ensures |w| == 29
  {
    [0, 0x8000_0000] + seq(10, _ => 0) + [0x280] + seq(16, _ => 0)
  }

  function FieldWords(s: seq<Byte>, n: nat): (w: seq<U32>)
    requires HexOf(s, 4 * n)
    ensures |w| == n
  {
    LeWords(Decode(s))
  }

  lemma WorkImage(p: Primitives, m: Notify, xnonce1: seq<Byte>, xnonce2: seq<Byte>, n: U32)
    requires Civiclight.Usable(p) && WellFormed(m)
    ensures HeaderAt(WorkData(p, m, xnonce1, xnonce2), false, n) ==
      SwapWords(Decode(m.version)) + SwapWords(Decode(m.prevhash))
      + MerkleRoot(p, Coinbase(m, xnonce1, xnonce2), DecodeAll(m.merkle))
      + SwapWords(Decode(m.ntime)) + SwapWords(Decode(m.nbits)) + Le32(n)
  {
    hide MerkleRoot, Coinbase, DecodeAll, Decode, AllHex, HeaderAt, Le32, SwapWords, LeWords, BeWords, Be32s;
    var d := WorkData(p, m, xnonce1, xnonce2);
    var a, b := LeWords(Decode(m.version)), LeWords(Decode(m.prevhash));
    var e, f := LeWords(Decode(m.ntime)), LeWords(Decode(m.nbits));
    var c := BeWords(MerkleRoot(p, Coinbase(m, xnonce1, xnonce2), DecodeAll(m.merkle)));
    HeaderImage(d, n);
    assert d[..19] == a + b + c + e + f;
    Be32sAppend(a + b + c + e, f);
    Be32sAppend(a + b + c, e);
    Be32sAppend(a + b, c);
    Be32sAppend(a, b);
    LeWordsSwap(Decode(m.version));
    LeWordsSwap(Decode(m.prevhash));
    LeWordsSwap(Decode(m.ntime));
    LeWordsSwap(Decode(m.nbits));
    BeWordsKeep(MerkleRoot(p, Coinbase(m, xnonce1, xnonce2), DecodeAll(m.merkle)));
  }

  /** std_le_build_stratum_request on a work's words. */
  function Request(jobId: seq<Byte>, xnonce2: seq<Byte>, data: seq<U32>): Submit
    requires |data| >= 20
  {
    Submit(jobId, Encode(xnonce2), Encode(Le32(data[17])), Encode(Le32(data[19])))
  }

  /** abin2hex */
  method HexString(b: seq<Byte>) returns (s: seq<Byte>)
    ensures s == Encode(b)
  {
    var buf := new Byte[2 * |b| + 1](_ => 0);
    Bin2Hex(buf, b);
    s := buf[..2 * |b|];
  }

  /** std_le_build_stratum_request: le32enc and bin2hex on the two words, abin2hex on the extranonce. */
  method BuildStratumRequest(jobId: seq<Byte>, xnonce2: seq<Byte>, data: array<U32>) returns (r: Submit)
    requires data.Length >= 20
    ensures r == Request(jobId, xnonce2, data[..])
  {
    var ntimestr := HexString(Le32(data[17]));
    var noncestr := HexString(Le32(data[19]));
    var xnonce2str := HexString(xnonce2);
    r := Submit(jobId, xnonce2str, ntimestr, noncestr);
  }

  /** Whatever nonce was hashed on the work of a well-formed job, the pool rebuilds exactly that header. */
  lemma PoolRebuildsHeader(p: Primitives, m: Notify, xnonce1: seq<Byte>, xnonce2: seq<Byte>, n: U32)
    requires Civiclight.Usable(p) && WellFormed(m)
    ensures var d := WorkData(p, m, xnonce1, xnonce2);
      PoolSees(p, m, xnonce1, Request(m.jobId, xnonce2, d[19 := Bswap32(n)]), HeaderAt(d, false, n))
  {
    hide MerkleRoot, Coinbase, DecodeAll, Decode, Encode, AllHex, HeaderAt, Le32, Bswap32, SwapWords,
         WorkData, Civiclight.Usable;
    var d := WorkData(p, m, xnonce1, xnonce2);
    WorkImage(p, m, xnonce1, xnonce2, n);
    DecodeEncode(xnonce2);
    NtimeComesBack(p, m, xnonce1, xnonce2);
    NonceComesBack(n);
  }

  lemma NtimeComesBack(p: Primitives, m: Notify, xnonce1: seq<Byte>, xnonce2: seq<Byte>)
    requires Civiclight.Usable(p) && WellFormed(m)
    ensures Decode(Encode(Le32(WorkData(p, m, xnonce1, xnonce2)[17]))) == Decode(m.ntime)
  {
    hide MerkleRoot, Coinbase, DecodeAll, Decode, AllHex, BeWords, Encode, FromLe32, Le32;
    var t := Decode(m.ntime);
    var x := FromLe32(t);
    OneWord(t);
    assert WorkData(p, m, xnonce1, xnonce2)[17] == x;
    BytesRoundTrip(t);
    DecodeEncode(Le32(x));
  }

  lemma NonceComesBack(n: U32)
    ensures SwapWords(Decode(Encode(Le32(Bswap32(n))))) == Le32(n)
  {
    Bswap32Facts(n);
    DecodeEncode(Be32(n));
    WordsRoundTrip(n);
    assert Be32(n)[..4] == Be32(n);
  }

  /** The pool rebuilds a header whose hash is the submitted one, and that hash meets the target. */
  ghost predicate SeenAndGood(j: Job, m: Notify, xnonce1: seq<Byte>, xnonce2: seq<Byte>, sub: Submission)
    requires Scan.Usable(j) && WellFormed(m)
  {
    |sub.data| >= 20 && |sub.hash| == 32 && LeValue(sub.hash) <= Target.Value(j.target)
    && exists header :: |header| == 80 && PowHash(j.p, header) == sub.hash
                        && PoolSees(j.p, m, xnonce1, Request(m.jobId, xnonce2, sub.data), header)
  }

  /** Every submission of a scan: the pool rebuilds the header, its hash is the one the scan saw, and it meets the
      target. */
  lemma {:induction false} SubmissionsAreGood(j: Job, m: Notify, xnonce1: seq<Byte>, xnonce2: seq<Byte>,
                                              start: U32, first: U32, n: U32, k: nat)
    requires Scan.Usable(j) && WellFormed(m) && !j.bench && first <= n
    requires j.base == WorkData(j.p, m, xnonce1, xnonce2)[19 := start]
    requires k < |Found(j, first, n)|
    ensures SeenAndGood(j, m, xnonce1, xnonce2, Found(j, first, n)[k])
    decreases n - first
  {
    hide PoolSees, PowHash, WorkData, Request, HeaderAt, LeValue, Target.Value;
    if k == |Found(j, first, n - 1)| {
      OneSubmissionIsGood(j, m, xnonce1, xnonce2, start, n - 1);
    } else {
      SubmissionsAreGood(j, m, xnonce1, xnonce2, start, first, n - 1, k);
    }
  }

  lemma OneSubmissionIsGood(j: Job, m: Notify, xnonce1: seq<Byte>, xnonce2: seq<Byte>, start: U32, n: U32)
    requires Scan.Usable(j) && WellFormed(m) && !j.bench
    requires j.base == WorkData(j.p, m, xnonce1, xnonce2)[19 := start]
    ensures PoolSees(j.p, m, xnonce1, Request(m.jobId, xnonce2, j.base[19 := Bswap32(n)]), HeaderAt(j.base, false, n))
  {
    hide WorkData, PoolSees, Request, HeaderAt, Bswap32, Civiclight.Usable, WellFormed;
    var d := WorkData(j.p, m, xnonce1, xnonce2);
    PoolRebuildsHeader(j.p, m, xnonce1, xnonce2, n);
    assert j.base[19 := Bswap32(n)] == d[19 := Bswap32(n)];
    OwnNonceIgnored(d, start, n);
  }

  /** The nonce word of the work has no part in the header that is hashed for a nonce. */
  lemma OwnNonceIgnored(d: seq<U32>, start: U32, n: U32)
    requires |d| >= 20
    ensures HeaderAt(d[19 := start], false, n) == HeaderAt(d, false, n)
  {
    hide Bswap32, Le32s;
    assert Edata(d[19 := start], false)[19 := n] == Edata(d, false)[19 := n];
  }

  // ----- the stratum context and the shared work -----

  method RunSha256d(p: Primitives, m: seq<Byte>) returns (h: seq<Byte>)
    requires Civiclight.Usable(p)
    ensures h == Sha256d(p, m)
  {
    h := ShaFull(p, m);
    h := ShaFull(p, h);
  }

  /** sha256d_gen_merkle_root: fold the branches in place in a 64-byte buffer. */
  method GenMerkleRoot(p: Primitives, coinbase: seq<Byte>, branches: seq<seq<Byte>>, root: array<Byte>)
    requires Civiclight.Usable(p) && root.Length == 64 && forall i :: 0 <= i < |branches| ==> |branches[i]| == 32
    modifies root
    ensures root[..32] == MerkleRoot(p, coinbase, branches)
  {
    var h := RunSha256d(p, coinbase);
    Memcpy(root, 0, h);
    for i := 0 to |branches|
      invariant root[..32] == MerkleRoot(p, coinbase, branches[..i])
    {
      Memcpy(root, 32, branches[i]);
      assert branches[..i + 1][..i] == branches[..i];
      assert root[..] == MerkleRoot(p, coinbase, branches[..i]) + branches[i];
      h := RunSha256d(p, root[..]);
      Memcpy(root, 0, h);
    }
    assert branches[..|branches|] == branches;
  }

  /** The shared work that miners copy from. */
  class GlobalWork {
    const data: array<U32>
    var info: WorkInfo

    constructor ()
      ensures data.Length == 48 && fresh(data) && info == NO_WORK
    {
      data := new U32[48](_ => 0);
      info := NO_WORK;
    }

    /** std_build_block_header on the stratum path. */
    method BuildBlockHeader(version: U32, prevhash: seq<Byte>, merkleRoot: seq<Byte>, ntime: U32, nbits: U32)
      requires data.Length == 48 && |prevhash| == |merkleRoot| == 32
      modifies data
      ensures data[..] == [version] + LeWords(prevhash) + BeWords(merkleRoot) + [ntime, nbits]
                          + AfterHeader()
    {
      hide LeWords, BeWords;
      forall i | 0 <= i < 48 {
        data[i] := 0;
      }
      data[0] := version;
      assert data[..] == [version] + ZeroWords(47);
      StoreLe(data, 1, prevhash);
      ghost var front := [version] + LeWords(prevhash);
      assert data[..] == front + ZeroWords(39);
      StoreBe(data, 9, merkleRoot);
      front := front + BeWords(merkleRoot);
      assert data[..] == front + ZeroWords(31);
      ghost var zeroed := data[..];
      data[17] := ntime;
      data[18] := nbits;
      data[20] := 0x8000_0000;
      data[31] := 0x280;
      assert data[..] == Closed(zeroed, ntime, nbits);
      LastWords(front, ntime, nbits);
    }
  }

  function ZeroWords(n: nat): (w: seq<U32>)
    ensures |w| == n && forall i :: 0 <= i < n ==> w[i] == 0
  {
    seq(n, _ => 0)
  }

  function Closed(w: seq<U32>, ntime: U32, nbits: U32): (r: seq<U32>)
    requires |w| == 48
    ensures |r| == 48
  {
    var w1: seq<U32> := w[17 := ntime];
    var w2: seq<U32> := w1[18 := nbits];
    var w3: seq<U32> := w2[20 := 0x8000_0000];
    w3[31 := 0x280]
  }

  lemma LastWords(front: seq<U32>, ntime: U32, nbits: U32)
    requires |front| == 17
    ensures Closed(front + ZeroWords(31), ntime, nbits) == front + [ntime, nbits] + AfterHeader()
  {
  }

  /** data[at + i] = le32dec(s + i) for the eight words of s. */
  method StoreLe(data: array<U32>, at: nat, s: seq<Byte>)
    requires |s| == 32 && at + 8 <= data.Length
    modifies data
    ensures data[..] == old(data[..at]) + LeWords(s) + old(data[at + 8..])
  {
    hide LeWords, FromLe32;
    for i := 0 to 8
      invariant data[..] == old(data[..at]) + LeWords(s)[..i] + old(data[at + i..])
    {
      LeWordAt(s, i);
      data[at + i] := FromLe32(s[4 * i..4 * i + 4]);
    }
  }

  /** data[at + i] = be32dec(s + i) for the eight words of s. */
  method StoreBe(data: array<U32>, at: nat, s: seq<Byte>)
    requires |s| == 32 && at + 8 <= data.Length
    modifies data
    ensures data[..] == old(data[..at]) + BeWords(s) + old(data[at + 8..])
  {
    hide BeWords, FromBe32;
    for i := 0 to 8
      invariant data[..] == old(data[..at]) + BeWords(s)[..i] + old(data[at + i..])
    {
      BeWordAt(s, i);
      data[at + i] := FromBe32(s[4 * i..4 * i + 4]);
    }
  }

  lemma {:induction false} LeWordAt(s: seq<Byte>, i: nat)
    requires 4 * i + 4 <= |s|
    ensures LeWords(s)[i] == FromLe32(s[4 * i..4 * i + 4])
  {
    var j := 4 * i;
    if i > 0 {
      LeWordAt(s[4..], i - 1);
      assert s[4..][j - 4..j] == s[j..j + 4];
    }
  }

  lemma {:induction false} BeWordAt(s: seq<Byte>, i: nat)
    requires 4 * i + 4 <= |s|
    ensures BeWords(s)[i] == FromBe32(s[4 * i..4 * i + 4])
  {
    var j := 4 * i;
    if i > 0 {
      BeWordAt(s[4..], i - 1);
      assert s[4..][j - 4..j] == s[j..j + 4];
    }
  }

  /** The two halves and extranonce1 into the coinbase; the window is cleared or left alone. */
  method WriteParts(buf: array<Byte>, half1: seq<Byte>, xnonce1: seq<Byte>, size: nat, clear: bool, half2: seq<Byte>)
    requires buf.Length == |half1| + |xnonce1| + size + |half2|
    modifies buf
    ensures var at := |half1| + |xnonce1|;
      buf[..] == half1 + xnonce1 + (if clear then Zeros(size) else old(buf[at..at + size])) + half2
  {
    var at := |half1| + |xnonce1|;
    WriteFront(buf, half1, xnonce1);
    ghost var front, rest := buf[..at], buf[at..];
    assert buf[..] == front + rest;
    if clear {
      ClearBytes(buf, at, size);
    }
    Windowed(front, rest, size);
    ghost var window := if clear then Zeros(size) else rest[..size];
    assert buf[..] == front + window + rest[size..];
    Memcpy(buf, at + size, half2);
    Ended(front + window, rest[size..], half2);
  }

  method WriteFront(buf: array<Byte>, half1: seq<Byte>, xnonce1: seq<Byte>)
    requires |half1| + |xnonce1| <= buf.Length
    modifies buf
    ensures buf[..|half1| + |xnonce1|] == half1 + xnonce1
    ensures buf[|half1| + |xnonce1|..] == old(buf[|half1| + |xnonce1|..])
  {
    ghost var before := buf[..];
    Memcpy(buf, 0, half1);
    Memcpy(buf, |half1|, xnonce1);
    Fronted(before, half1, xnonce1);
    assert buf[..] == half1 + xnonce1 + before[|half1| + |xnonce1|..];
  }

  /** realloc: the contents stay as far as both sizes reach. */
  method Realloc(a: array<Byte>, size: nat) returns (b: array<Byte>)
    ensures fresh(b) && b.Length == size
    ensures a.Length == size ==> b[..] == a[..]
  {
    b := new Byte[size];
    var kept := if a.Length < size then a.Length else size;
    Memcpy(b, 0, a[..kept]);
  }

  lemma Fronted(c: seq<Byte>, a: seq<Byte>, b: seq<Byte>)
    requires |a| + |b| <= |c|
    ensures (c[..0] + a + c[0 + |a|..])[..|a|] + b + (c[..0] + a + c[0 + |a|..])[|a| + |b|..] == a + b + c[|a| + |b|..]
  {
  }

  lemma Windowed(front: seq<Byte>, rest: seq<Byte>, size: nat)
    requires size <= |rest|
    ensures front + rest == front + rest[..size] + rest[size..]
    ensures (front + rest)[..|front|] + Zeros(size) + (front + rest)[|front| + size..]
         == front + Zeros(size) + rest[size..]
  {
  }

  lemma Ended(front: seq<Byte>, rest: seq<Byte>, half2: seq<Byte>)
    requires |half2| == |rest|
    ensures (front + rest)[..|front|] + half2 + (front + rest)[|front| + |half2|..] == front + half2
  {
  }

  class StratumContext {
    var xnonce1: seq<Byte>
    var xnonce2Size: nat
    var coinbase: array<Byte>
    /** Where job.xnonce2 points into the coinbase. */
    var xnonce2At: nat
    var hasJob: bool
    var jobId: seq<Byte>
    var prevhash: seq<Byte>
    var merkle: seq<seq<Byte>>
    var version: seq<Byte>
    var nbits: seq<Byte>
    var ntime: seq<Byte>
    /** The difficulty of the job, and the one the next job gets. */
    var diff: real
    var nextDiff: real
    var height: nat

    constructor (xnonce1: seq<Byte>, xnonce2Size: nat)
      ensures this.xnonce1 == xnonce1 && this.xnonce2Size == xnonce2Size && !hasJob && fresh(coinbase)
    {
      this.xnonce1 := xnonce1;
      this.xnonce2Size := xnonce2Size;
      coinbase := new Byte[0];
      xnonce2At := 0;
      hasJob := false;
      jobId, prevhash, merkle, version, nbits, ntime := [], [], [], [], [], [];
      diff, nextDiff, height := 0.0, 0.0, 0;
    }

    /** The context holds the job m, laid out with the extranonce1 x1 and the extranonce2 x. */
    ghost predicate LaidOut(m: Notify, x1: seq<Byte>, x: seq<Byte>)
      reads this`coinbase, this`xnonce2At, this`hasJob, this`jobId, this`prevhash, this`merkle, this`version,
            this`nbits, this`ntime, coinbase
    {
      WellFormed(m)
      && xnonce2At == |Decode(m.coinb1)| + |x1|
      && coinbase[..] == Coinbase(m, x1, x)
      && hasJob && jobId == m.jobId && prevhash == Decode(m.prevhash) && merkle == DecodeAll(m.merkle)
      && version == Decode(m.version) && nbits == Decode(m.nbits) && ntime == Decode(m.ntime)
    }

    /** ... laid out for the extranonce in force. */
    ghost predicate Holds(m: Notify, x: seq<Byte>)
      reads this, coinbase
    {
      LaidOut(m, xnonce1, x) && |x| == xnonce2Size
    }

    /** stratum_parse_extranonce: the extranonce in force changes, the coinbase keeps its layout. */
    method SetExtranonce(hex: Option<seq<Byte>>, size: int) returns (ok: bool)
      modifies this`xnonce1, this`xnonce2Size
      ensures ok <==> hex.Some? && 2 <= size <= 16
      ensures !ok ==> xnonce1 == old(xnonce1) && xnonce2Size == old(xnonce2Size)
      ensures ok ==> xnonce2Size == size && |xnonce1| == |hex.value| / 2
      ensures ok && HexOf(hex.value, |hex.value| / 2) ==> xnonce1 == Decode(hex.value)
    {
      if hex.None? || size < 2 || size > 16 {
        return false;
      }
      xnonce1 := HexField(hex.value, |hex.value| / 2);
      xnonce2Size := size;
      return true;
    }

    /** stratum_notify. A new job starts its counter at zero; a repeated job of the same shape keeps it.
        `blockHeight` is what getblocheight reads from the new coinbase. */
    method OnNotify(m: Notify, blockHeight: nat) returns (ok: bool)
      modifies this
      ensures xnonce1 == old(xnonce1) && xnonce2Size == old(xnonce2Size) && nextDiff == old(nextDiff)
      ensures ok <==> |m.prevhash| == 64 && |m.version| == 8 && |m.nbits| == 8 && |m.ntime| == 8
                      && forall i :: 0 <= i < |m.merkle| ==> |m.merkle[i]| == 64
      ensures ok ==> diff == nextDiff && height == blockHeight
      ensures WellFormed(m) && !(old(hasJob) && old(jobId) == m.jobId) ==> ok && Holds(m, Zeros(xnonce2Size))
      ensures WellFormed(m) ==> xnonce2At + xnonce2Size <= coinbase.Length
                                && Holds(m, coinbase[xnonce2At..xnonce2At + xnonce2Size])
      ensures ok ==> fresh(coinbase)
      ensures WellFormed(m) && old(hasJob && jobId == m.jobId) && old(coinbase.Length) == coinbase.Length
              ==> ok && Holds(m, old(coinbase[..])[xnonce2At..xnonce2At + xnonce2Size])
    {
      hide Decode, DecodeAll, Coinbase, Zeros, WellFormed, HexOf;
      Fields(m);
      if |m.prevhash| != 64 || |m.version| != 8 || |m.nbits| != 8 || |m.ntime| != 8 {
        return false;
      }
      version := HexField(m.version, 4);
      var readable := ReadMerkle(m.merkle);
      if !readable {
        merkle := [];
        return false;
      }
      Layout(m);
      Adopt(m);
      height := blockHeight;
      diff := nextDiff;
      return true;
    }

    /** The job id and the fixed-size fields. */
    method Adopt(m: Notify)
      modifies this`hasJob, this`jobId, this`prevhash, this`nbits, this`ntime
      ensures hasJob && jobId == m.jobId
      ensures WellFormed(m) ==> prevhash == Decode(m.prevhash) && nbits == Decode(m.nbits) && ntime == Decode(m.ntime)
    {
      hide Decode, WellFormed, HexOf;
      Fields(m);
      hasJob, jobId := true, m.jobId;
      prevhash := HexField(m.prevhash, 32);
      nbits := HexField(m.nbits, 4);
      ntime := HexField(m.ntime, 4);
    }

    /** The Merkle branches, until one of the wrong length. */
    method ReadMerkle(branches: seq<seq<Byte>>) returns (ok: bool)
      modifies this`merkle
      ensures ok <==> forall i :: 0 <= i < |branches| ==> |branches[i]| == 64
      ensures (forall i :: 0 <= i < |branches| ==> HexOf(branches[i], 32)) ==> merkle == DecodeAll(branches)
    {
      merkle := [];
      for i := 0 to |branches|
        invariant forall k :: 0 <= k < i ==> |branches[k]| == 64
        invariant (forall k :: 0 <= k < i ==> HexOf(branches[k], 32)) ==> merkle == DecodeAll(branches[..i])
      {
        if |branches[i]| != 64 {
          assert !HexOf(branches[i], 32);
          return false;
        }
        var b := HexField(branches[i], 32);
        assert branches[..i + 1][..i] == branches[..i];
        merkle := merkle + [b];
      }
      assert branches[..|branches|] == branches;
      return true;
    }

    /** The coinbase of a notify: both halves, extranonce1 and the window of extranonce2. */
    method Layout(m: Notify)
      modifies this`coinbase, this`xnonce2At
      ensures fresh(coinbase)
      ensures xnonce2At == |m.coinb1| / 2 + |xnonce1|
      ensures coinbase.Length == |m.coinb1| / 2 + |xnonce1| + xnonce2Size + |m.coinb2| / 2
      ensures WellFormed(m) ==> coinbase[..] == Coinbase(m, xnonce1, coinbase[xnonce2At..xnonce2At + xnonce2Size])
      ensures WellFormed(m) && !(hasJob && jobId == m.jobId)
              ==> coinbase[..] == Coinbase(m, xnonce1, Zeros(xnonce2Size))
      ensures WellFormed(m) && hasJob && jobId == m.jobId && old(coinbase.Length) == coinbase.Length
              ==> coinbase[..] == Coinbase(m, xnonce1, old(coinbase[..])[xnonce2At..xnonce2At + xnonce2Size])
    {
      hide Decode, AllHex, DecodeAll;
      var size1, size2 := |m.coinb1| / 2, |m.coinb2| / 2;
      coinbase := Realloc(coinbase, size1 + |xnonce1| + xnonce2Size + size2);
      xnonce2At := size1 + |xnonce1|;
      var half1 := HexField(m.coinb1, size1);
      var half2 := HexField(m.coinb2, size2);
      var newJob := !hasJob || jobId != m.jobId;
      WriteParts(coinbase, half1, xnonce1, xnonce2Size, newJob, half2);
    }

    /** stratum_gen_work: the shared work of the next extranonce2, then the counter moves on. The extranonce2 it
        publishes is what is in the coinbase where the job's began, in the size now in force. `epoch` is what the
        load of reauth_epoch returns, `factor` the product of the two difficulty options. */
    method GenWork(p: Primitives, g: GlobalWork, epoch: nat, factor: real,
                   ghost m: Notify, ghost x1: seq<Byte>, ghost x: seq<Byte>)
      requires Civiclight.Usable(p) && LaidOut(m, x1, x) && g.data.Length == 48
      requires xnonce2At + xnonce2Size <= coinbase.Length
      requires factor > 0.0 && Representable(diff / factor)
      modifies g, g.data, coinbase
      ensures g.info == WorkInfo(Some(m.jobId), Window(m, x1, x, xnonce2Size), g.info.target, diff / factor,
                                 height, epoch)
      ensures OwnTarget(g.info) && g.data[..] == WorkData(p, m, x1, x)
      ensures xnonce2Size <= |x| ==> LaidOut(m, x1, Next(x[..xnonce2Size]) + x[xnonce2Size..])
      ensures |x| == xnonce2Size ==> g.info.xnonce2 == x && LaidOut(m, x1, Next(x))
    {
      hide WorkData, Decode, DecodeAll, WellFormed, HexOf, Next, TargetOf, Representable, Coinbase;
      var size := xnonce2Size;
      WindowIs(m, x1, x, size);
      var xnonce2 := coinbase[xnonce2At..xnonce2At + size];
      var targetDiff := diff / factor;
      BuildExtraheader(p, g, m, x1, x);
      var target := new U64[4];
      DiffToHash64(target, targetDiff);
      g.info := WorkInfo(Some(jobId), xnonce2, target[..], targetDiff, height, epoch);
      Increment(coinbase, xnonce2At, size);
    }

    /** k calls of stratum_gen_work on one job: the i-th publishes the start value after i increments, so up to
        256^size of them publish different extranonce2 values. */
    method GenWorks(p: Primitives, g: GlobalWork, k: nat, epochs: nat -> nat, factor: real,
                    ghost m: Notify, ghost x: seq<Byte>)
      returns (ghost published: seq<seq<Byte>>)
      requires Civiclight.Usable(p) && Holds(m, x) && g.data.Length == 48
      requires factor > 0.0 && Representable(diff / factor)
      modifies g, g.data, coinbase
      ensures |published| == k && Counted(published, x)
      ensures k <= Pow256(|x|) ==> forall i, j :: 0 <= i < j < k ==> published[i] != published[j]
      ensures Holds(m, After(x, k))
      ensures k > 0 ==> Publishes(p, g, m, After(x, k - 1))
    {
      assert WellFormed(m);
      hide *;
      published := [];
      NothingCounted(x);
      for i := 0 to k
        invariant |published| == i && Counted(published, x) && Holds(m, After(x, i))
        invariant i > 0 ==> Publishes(p, g, m, After(x, i - 1))
      {
        InBounds(m, After(x, i));
        GenWork(p, g, epochs(i), factor, m, xnonce1, After(x, i));
        JustPublished(p, g, m, After(x, i));
        ghost var before := published;
        published := before + [g.info.xnonce2];
        assert published[..i] == before;
        OneMoreCounted(published, x, i);
      }
      CountedDistinct(published, x);
    }

    lemma HoldsIs(m: Notify, x: seq<Byte>)
      requires LaidOut(m, xnonce1, x) && |x| == xnonce2Size
      ensures Holds(m, x)
    {
    }

    lemma InBounds(m: Notify, x: seq<Byte>)
      requires Holds(m, x)
      ensures LaidOut(m, xnonce1, x) && |x| == xnonce2Size && xnonce2At + xnonce2Size <= coinbase.Length
    {
      hide Decode, DecodeAll, WellFormed, HexOf;
    }

    /** The shared work is that of the job with this extranonce2. */
    ghost predicate Publishes(p: Primitives, g: GlobalWork, m: Notify, x: seq<Byte>)
      reads this, g, g.data
    {
      Civiclight.Usable(p) && WellFormed(m) && g.info.xnonce2 == x && OwnTarget(g.info)
      && g.data[..] == WorkData(p, m, xnonce1, x)
    }

    lemma JustPublished(p: Primitives, g: GlobalWork, m: Notify, x: seq<Byte>)
      requires Civiclight.Usable(p) && WellFormed(m) && g.info.xnonce2 == x && OwnTarget(g.info)
      requires g.data[..] == WorkData(p, m, xnonce1, x)
      ensures Publishes(p, g, m, x)
    {
      hide WorkData, Civiclight.Usable, WellFormed, OwnTarget;
    }

    /** std_build_extraheader */
    method BuildExtraheader(p: Primitives, g: GlobalWork, ghost m: Notify, ghost x1: seq<Byte>, ghost x: seq<Byte>)
      requires Civiclight.Usable(p) && LaidOut(m, x1, x) && g.data.Length == 48
      modifies g.data
      ensures g.data[..] == WorkData(p, m, x1, x)
    {
      hide Decode, DecodeAll, AllHex, MerkleRoot, Coinbase, BeWords, LeWords, FromLe32;
      var root := new Byte[64](_ => 0);
      DecodedBranches(m.merkle);
      GenMerkleRoot(p, coinbase[..], merkle, root);
      g.BuildBlockHeader(FromLe32(version), prevhash, root[..32], FromLe32(ntime), FromLe32(nbits));
      OneWord(version);
      OneWord(ntime);
      OneWord(nbits);
      assert LeWords(ntime) + LeWords(nbits) == [FromLe32(ntime), FromLe32(nbits)];
    }
  }

  /** The bytes of a coinbase where its extranonce2 begins. */
  function Window(m: Notify, x1: seq<Byte>, x: seq<Byte>, size: nat): (w: seq<Byte>)
    requires WellFormed(m) && |Decode(m.coinb1)| + |x1| + size <= |Coinbase(m, x1, x)|
    ensures |w| == size
  {
    var at := |Decode(m.coinb1)| + |x1|;
    Coinbase(m, x1, x)[at..at + size]
  }

  lemma WindowIs(m: Notify, x1: seq<Byte>, x: seq<Byte>, size: nat)
    requires WellFormed(m) && |Decode(m.coinb1)| + |x1| + size <= |Coinbase(m, x1, x)|
    ensures var at, c, w := |Decode(m.coinb1)| + |x1|, Coinbase(m, x1, x), Window(m, x1, x, size);
      size <= |x| ==>
        w == x[..size] && c[..at] + Next(w) + c[at + size..] == Coinbase(m, x1, Next(x[..size]) + x[size..])
    ensures size == |x| ==> x[..size] == x && x[size..] == [] && Next(x) + [] == Next(x)
  {
    hide Decode, AllHex, Next;
    ThreeParts(Decode(m.coinb1) + x1, x, Decode(m.coinb2), size);
    if size <= |x| {
      assert Coinbase(m, x1, Next(x[..size]) + x[size..])
          == (Decode(m.coinb1) + x1) + (Next(x[..size]) + x[size..]) + Decode(m.coinb2);
    }
  }

  lemma ThreeParts(front: seq<Byte>, x: seq<Byte>, back: seq<Byte>, size: nat)
    requires size <= |front + x + back| - |front|
    ensures var c := front + x + back;
      size <= |x| ==> (c[|front|..|front| + size] == x[..size]
        && forall y :: c[..|front|] + y + c[|front| + size..] == front + (y + x[size..]) + back)
  {
    var c := front + x + back;
    if size <= |x| {
      assert c[..|front|] == front && c[|front| + size..] == x[size..] + back;
      forall y ensures front + y + (x[size..] + back) == front + (y + x[size..]) + back {
      }
    }
  }

  /** The i-th value is the first one after i increments. */
  predicate Counted(published: seq<seq<Byte>>, x: seq<Byte>) {
    forall i :: 0 <= i < |published| ==> published[i] == After(x, i)
  }

  lemma NothingCounted(x: seq<Byte>)
    ensures Counted([], x) && After(x, 0) == x
  {
  }

  lemma OneMoreCounted(published: seq<seq<Byte>>, x: seq<Byte>, k: nat)
    requires |published| == k + 1 && Counted(published[..k], x) && published[k] == After(x, k)
    ensures Counted(published, x) && After(x, k + 1) == Next(After(x, k))
  {
    hide After, Next;
    assert forall i :: 0 <= i < k ==> published[i] == published[..k][i];
    AfterOne(x, k);
  }

  lemma AfterOne(x: seq<Byte>, k: nat)
    ensures After(x, k + 1) == Next(After(x, k))
  {
  }

  lemma CountedDistinct(published: seq<seq<Byte>>, x: seq<Byte>)
    requires Counted(published, x)
    ensures |published| <= Pow256(|x|) ==> forall i, j :: 0 <= i < j < |published| ==> published[i] != published[j]
  {
    hide After, Pow256;
    if |published| <= Pow256(|x|) {
      forall i, j | 0 <= i < j < |published| ensures published[i] != published[j] {
        GenerationsDistinct(x, i, j);
      }
    }
  }

  lemma OneWord(s: seq<Byte>)
    requires |s| == 4
    ensures LeWords(s) == [FromLe32(s)]
  {
    assert s[..4] == s && s[4..] == [];
  }

  lemma {:induction false} DecodedBranches(m: seq<seq<Byte>>)
    requires forall i :: 0 <= i < |m| ==> HexOf(m[i], 32)
    ensures forall i :: 0 <= i < |DecodeAll(m)| ==> |DecodeAll(m)[i]| == 32
  {
    if m != [] {
      DecodedBranches(m[..|m| - 1]);
      assert HexOf(m[|m| - 1], 32);
    }
  }
}
