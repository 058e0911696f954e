/** The 80-byte header as the scan sees it: twenty words in memory on a little-endian machine. */
module Header {
  import opened Bytes
  import opened Civiclight

  /** The bytes of words in memory. */
  function Le32s(ws: seq<U32>): (s: seq<Byte>)
    ensures |s| == 4 * |ws|
  {
    if ws == [] then [] else Le32s(ws[..|ws| - 1]) + Le32(ws[|ws| - 1])
  }

  lemma {:induction false} Le32sPrefix(ws: seq<U32>, k: nat)
    requires k <= |ws|
    ensures Le32s(ws)[..4 * k] == Le32s(ws[..k])
  {
    if k == |ws| {
      assert ws[..k] == ws;
    } else {
      Le32sPrefix(ws[..|ws| - 1], k);
      assert ws[..|ws| - 1][..k] == ws[..k];
    }
  }

  /** v128_bswap32_80, and the fork timestamp that benchmark work gets. */
  function Edata(data: seq<U32>, bench: bool): (e: seq<U32>)
    requires |data| >= 20
    ensures |e| == 20
  {
    var swapped := seq(20, i requires 0 <= i < 20 => Bswap32(data[i]));
    if bench then swapped[17 := V2_ACTIVATION_TIME] else swapped
  }

  /** The header that is hashed for nonce n. */
  function HeaderAt(data: seq<U32>, bench: bool, n: U32): (h: seq<Byte>)
    requires |data| >= 20
    ensures |h| == 80
  {
    Le32s(Edata(data, bench)[19 := n])
  }

  /** The first 64 bytes are those of every nonce. */
  lemma SharedPrefix(data: seq<U32>, bench: bool, n: U32)
    requires |data| >= 20
    ensures HeaderAt(data, bench, n)[..64] == Le32s(Edata(data, bench)[..16])
  {
    var e := Edata(data, bench)[19 := n];
    Le32sPrefix(e, 16);
    assert e[..16] == Edata(data, bench)[..16];
  }
}
