/** The 12-bit sample format of the Pluto driver: three bytes per I/Q pair, packed on receive from words aligned to the
    low bits, unpacked on transmit to words aligned to the high bits. */
module PlutoPacking {

  /** A 16-bit word as the signed number it stands for. */
  function Value(w: bv16): int {
    if w < 0x8000 then w as int else w as int - 0x1_0000
  }

  /** The value fits in 12 bits. */
  predicate Fits12(w: bv16) {
    w < 0x800 || w >= 0xF800
  }

  /** The three bytes of one pair; the casts to uint8_t keep the low byte, so the kind of right shift does not
      matter. */
  function PackPair(i: bv16, q: bv16): seq<bv8> {
    [Byte0(i), Byte1(i, q), Byte2(q)]
  }

  function Byte0(i: bv16): bv8 {
    (i & 0xFF) as bv8
  }

  function Byte1(i: bv16, q: bv16): bv8 {
    (((q << 4) | ((i >> 8) & 0x0F)) & 0xFF) as bv8
  }

  function Byte2(q: bv16): bv8 {
    ((q >> 4) & 0xFF) as bv8
  }

  function UnpackI(b0: bv8, b1: bv8): bv16 {
    ((b1 as bv16) << 12) | ((b0 as bv16) << 4)
  }

  function UnpackQ(b1: bv8, b2: bv8): bv16 {
    ((b2 as bv16) << 8) | ((b1 as bv16) & 0xF0)
  }

  /** The receive loop over n pairs of words I, Q, I, Q, ... */
  function Pack(ws: seq<bv16>, n: nat): (bytes: seq<bv8>)
    requires |ws| == 2 * n
    ensures |bytes| == 3 * n
  {
    if n == 0 then [] else PackPair(ws[0], ws[1]) + Pack(ws[2..], n - 1)
  }

  /** The transmit loop over n pairs. */
  function Unpack(bytes: seq<bv8>, n: nat): (ws: seq<bv16>)
    requires |bytes| == 3 * n
    ensures |ws| == 2 * n
  {
    if n == 0 then []
    else [UnpackI(bytes[0], bytes[1]), UnpackQ(bytes[1], bytes[2])] + Unpack(bytes[3..], n - 1)
  }

  function RaiseWord(w: bv16): bv16 {
    w << 4
  }

  /** Every word moved up by four places. */
  function Raise(ws: seq<bv16>): (r: seq<bv16>)
    ensures |r| == |ws|
  {
    seq(|ws|, k requires 0 <= k < |ws| => RaiseWord(ws[k]))
  }

  lemma PairRoundTrip(i: bv16, q: bv16)
    ensures var p := PackPair(i, q);
            |p| == 3 && UnpackI(p[0], p[1]) == RaiseWord(i) && UnpackQ(p[1], p[2]) == RaiseWord(q)
  {
  }

  /** The three bytes as one number of 24 bits, the first byte lowest. */
  function Little(b0: bv8, b1: bv8, b2: bv8): bv24 {
    (b0 as bv24) | ((b1 as bv24) << 8) | ((b2 as bv24) << 16)
  }

  /** The layout: I in the low and Q in the high 12 bits of that number. */
  lemma PackLayout(i: bv16, q: bv16)
    ensures Little(Byte0(i), Byte1(i, q), Byte2(q)) == ((i & 0xFFF) as bv24) | (((q & 0xFFF) as bv24) << 12)
  {
  }

  /** And unpacking takes them from there to the top of their words. */
  lemma UnpackLayout(b0: bv8, b1: bv8, b2: bv8)
    ensures UnpackI(b0, b1) == ((Little(b0, b1, b2) & 0xFFF) as bv16) << 4
    ensures UnpackQ(b1, b2) == ((Little(b0, b1, b2) >> 12) as bv16) << 4
  {
  }

  /** Shifting a 12-bit value to the top of the word multiplies it by 16. */
  lemma ShiftIsTimes16(w: bv16)
    requires Fits12(w)
    ensures Value(RaiseWord(w)) == 16 * Value(w)
  {
  }

  lemma UnpackFirst(p: seq<bv8>, rest: seq<bv8>, n: nat)
    requires |p| == 3 && |rest| == 3 * n
    ensures Unpack(p + rest, n + 1) == [UnpackI(p[0], p[1]), UnpackQ(p[1], p[2])] + Unpack(rest, n)
  {
    hide UnpackI, UnpackQ;
    assert (p + rest)[3..] == rest;
  }

  /** For any sequence of I/Q words, packing and unpacking keeps the low 12 bits of every component, moved up by four
      places, in order, using three bytes per pair. */
  lemma {:induction false} PackUnpack(ws: seq<bv16>, n: nat)
    requires |ws| == 2 * n
    ensures Unpack(Pack(ws, n), n) == Raise(ws)
    decreases n
  {
    hide PackPair, UnpackI, UnpackQ, RaiseWord;
    if n > 0 {
      var p, rest := PackPair(ws[0], ws[1]), Pack(ws[2..], n - 1);
      PackUnpack(ws[2..], n - 1);
      PairRoundTrip(ws[0], ws[1]);
      UnpackFirst(p, rest, n - 1);
      assert Raise(ws) == [RaiseWord(ws[0]), RaiseWord(ws[1])] + Raise(ws[2..]);
    }
  }

  /** So signed 12-bit components come back multiplied by 16. */
  lemma Cs12RoundTrip(ws: seq<bv16>, n: nat)
    requires |ws| == 2 * n && forall k :: 0 <= k < |ws| ==> Fits12(ws[k])
    ensures forall k :: 0 <= k < |ws| ==> Value(Unpack(Pack(ws, n), n)[k]) == 16 * Value(ws[k])
  {
    hide Pack, Unpack, Value, RaiseWord, Fits12;
    PackUnpack(ws, n);
    forall k | 0 <= k < |ws| ensures Value(Unpack(Pack(ws, n), n)[k]) == 16 * Value(ws[k]) {
      ShiftIsTimes16(ws[k]);
    }
  }

  /** The words of item j. */
  lemma {:induction false} UnpackAt(bytes: seq<bv8>, n: nat, j: nat)
    requires |bytes| == 3 * n && j < n
    ensures Unpack(bytes, n)[2 * j] == UnpackI(bytes[3 * j], bytes[3 * j + 1])
    ensures Unpack(bytes, n)[2 * j + 1] == UnpackQ(bytes[3 * j + 1], bytes[3 * j + 2])
    decreases j
  {
    hide UnpackI, UnpackQ;
    if j > 0 {
      UnpackAt(bytes[3..], n - 1, j - 1);
    }
  }

  /** The bytes of item j. */
  lemma {:induction false} PackAt(ws: seq<bv16>, n: nat, j: nat)
    requires |ws| == 2 * n && j < n
    ensures Pack(ws, n)[3 * j..3 * j + 3] == PackPair(ws[2 * j], ws[2 * j + 1])
    decreases j
  {
    hide Byte0, Byte1, Byte2;
    if j > 0 {
      PackAt(ws[2..], n - 1, j - 1);
      assert Pack(ws, n)[3 * j..3 * j + 3] == Pack(ws[2..], n - 1)[3 * (j - 1)..3 * (j - 1) + 3];
    }
  }

  /** The CS12 loop of recv. */
  method RecvCs12(src: seq<bv16>, dst: array<bv8>, items: nat)
    requires 2 * items <= |src| && 3 * items <= dst.Length
    modifies dst
    ensures dst[..3 * items] == Pack(src[..2 * items], items)
    ensures dst[3 * items..] == old(dst[3 * items..])
  {
    hide Pack, Byte0, Byte1, Byte2;
    ghost var goal := Pack(src[..2 * items], items);
    for n := 0 to items
      invariant forall w :: 0 <= w < 3 * n ==> dst[w] == goal[w]
      invariant forall w :: 3 * items <= w < dst.Length ==> dst[w] == old(dst[w])
    {
      var i, q := src[2 * n], src[2 * n + 1];
      PackAt(src[..2 * items], items, n);
      ghost var triple := goal[3 * n..3 * n + 3];
      assert triple[0] == goal[3 * n] && triple[1] == goal[3 * n + 1] && triple[2] == goal[3 * n + 2];
      dst[3 * n] := Byte0(i);
      dst[3 * n + 1] := Byte1(i, q);
      dst[3 * n + 2] := Byte2(q);
    }
  }
}
