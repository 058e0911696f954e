/** Which version of the proof-of-work hash a header gets, by the time in the job it was made for. */
module Versions {
  import opened Bytes
  import opened Civiclight
  import opened Header
  import opened Hex
  import opened Stratum

  /** Word k of words in memory. */
  lemma {:induction false} Le32sAt(ws: seq<U32>, k: nat)
    requires k < |ws|
    ensures Le32s(ws)[4 * k..4 * k + 4] == Le32(ws[k])
  {
    hide Le32;
    if k < |ws| - 1 {
      Le32sAt(ws[..|ws| - 1], k);
    }
  }

  /** The bytes of a word from its least significant one up are its value in base 256. */
  lemma LittleEndian(b: seq<Byte>)
    requires |b| == 4
    ensures FromLe32(b) == b[0] as int + 0x100 * b[1] as int + 0x1_0000 * b[2] as int + 0x100_0000 * b[3] as int
  {
  }

  /** The version of a header is decided by its time field, which is bytes 68 to 71, little-endian. */
  lemma VersionOfHeader(p: Primitives, header: seq<Byte>)
    requires Civiclight.Usable(p) && |header| == 80
    ensures var time := header[68] as int + 0x100 * header[69] as int + 0x1_0000 * header[70] as int
                  + 0x100_0000 * header[71] as int;
      var twice := Sha(p, Sha(p, header));
      PowHash(p, header) == if time >= 1784797200 then CoreV2(p, twice) else CoreV1(p, twice)
  {
    hide Sha, CoreV1, CoreV2, Civiclight.Usable;
    LittleEndian(header[68..72]);
  }

  /** For every job, extranonce and nonce: the second version exactly when the job's time, as the pool sends it, is
      at or past the activation time. */
  lemma VersionOfJob(p: Primitives, m: Notify, xnonce1: seq<Byte>, xnonce2: seq<Byte>, n: U32)
    requires Civiclight.Usable(p) && WellFormed(m)
    ensures var t := Decode(m.ntime);
      var time := 0x100_0000 * t[0] as int + 0x1_0000 * t[1] as int + 0x100 * t[2] as int + t[3] as int;
      var header := HeaderAt(WorkData(p, m, xnonce1, xnonce2), false, n);
      var twice := Sha(p, Sha(p, header));
      PowHash(p, header) == if time >= 1784797200 then CoreV2(p, twice) else CoreV1(p, twice)
  {
    hide MerkleRoot, Coinbase, DecodeAll, Decode, AllHex, HeaderAt, Le32, WorkData, Civiclight.Usable, Sha, CoreV1,
         CoreV2, PowHash;
    var t := Decode(m.ntime);
    var header := HeaderAt(WorkData(p, m, xnonce1, xnonce2), false, n);
    WorkImage(p, m, xnonce1, xnonce2, n);
    OneWordSwapped(t);
    assert header[68..72] == Reverse4(t);
    VersionOfHeader(p, header);
  }

  lemma OneWordSwapped(t: seq<Byte>)
    requires |t| == 4
    ensures SwapWords(t) == Reverse4(t)
  {
    assert t[..4] == t;
  }

  /** Benchmark work always gets the second version. */
  lemma BenchmarkGetsV2(p: Primitives, data: seq<U32>, n: U32)
    requires Civiclight.Usable(p) && |data| >= 20
    ensures var header := HeaderAt(data, true, n);
      PowHash(p, header) == CoreV2(p, Sha(p, Sha(p, header)))
  {
    hide Sha, CoreV1, CoreV2, Civiclight.Usable, Le32, Le32s, PowHash, Bswap32;
    var header := HeaderAt(data, true, n);
    Le32sAt(Edata(data, true)[19 := n], 17);
    assert header[68..72] == Le32(1784797200);
    WordsRoundTrip(1784797200);
    LittleEndian(header[68..72]);
    VersionOfHeader(p, header);
  }
}
