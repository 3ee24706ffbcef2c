/** How the Pluto transmitter fills the device buffer: a direct copy for the plain layout, and strided per-channel loops
    through the library's conversion for any other. The buffer is seen as 16-bit words. */
module PlutoCopy {
  import opened PlutoPacking

  /** Where the two lanes (I and Q) of the buffer start, two words apart per item, and what the library's conversion
      does to a word on its way into each. */
  datatype Layout = Layout(first0: nat, first1: nat, convert0: bv16 -> bv16, convert1: bv16 -> bv16)

  /** The buffer with src written from word `at` on. */
  function Splice(buf: seq<bv16>, at: nat, src: seq<bv16>): (r: seq<bv16>)
    requires at + |src| <= |buf|
    ensures |r| == |buf|
  {
    buf[..at] + src + buf[at + |src|..]
  }

  /** The buffer with every second word from word `at` on replaced by the words of src. */
  function Stride(buf: seq<bv16>, at: nat, src: seq<bv16>): (r: seq<bv16>)
    requires |src| > 0 ==> at + 2 * |src| <= |buf| + 1
    ensures |r| == |buf|
  {
    seq(|buf|, w requires 0 <= w < |buf| =>
      if at <= w < at + 2 * |src| && (w - at) % 2 == 0 then src[(w - at) / 2] else buf[w])
  }

  /** One component of every pair, converted. */
  function Lane(src: seq<bv16>, k: nat, convert: bv16 -> bv16): (r: seq<bv16>)
    requires |src| % 2 == 0 && k < 2
    ensures |r| == |src| / 2
  {
    seq(|src| / 2, j requires 0 <= j < |src| / 2 => convert(src[2 * j + k]))
  }

  predicate InBounds(buf: seq<bv16>, items: nat, src: seq<bv16>, layout: Layout) {
    && |src| % 2 == 0 && 2 * items + |src| <= |buf|
    && (|src| > 0 ==>
          layout.first0 + 2 * items + |src| <= |buf| + 1 && layout.first1 + 2 * items + |src| <= |buf| + 1)
  }

  /** What the direct copy leaves in a buffer that already holds `items` pairs. */
  function Direct(buf: seq<bv16>, items: nat, src: seq<bv16>): seq<bv16>
    requires 2 * items + |src| <= |buf|
  {
    Splice(buf, 2 * items, src)
  }

  /** What the two strided loops leave. */
  function Generic(buf: seq<bv16>, items: nat, src: seq<bv16>, layout: Layout): seq<bv16>
    requires InBounds(buf, items, src, layout)
  {
    Stride(Stride(buf, layout.first0 + 2 * items, Lane(src, 0, layout.convert0)),
           layout.first1 + 2 * items, Lane(src, 1, layout.convert1))
  }

  /** The 8-bit format, a byte to the top half of each word. */
  function Widen(bytes: seq<bv8>): (ws: seq<bv16>)
    ensures |ws| == |bytes|
  {
    seq(|bytes|, k requires 0 <= k < |bytes| => WidenByte(bytes[k]))
  }

  function WidenByte(b: bv8): bv16 {
    (b as bv16) << 8
  }

  /** A byte as the signed number it stands for. */
  function ByteValue(b: bv8): int {
    if b < 0x80 then b as int else b as int - 0x100
  }

  /** Widening multiplies the signed value by 256. */
  lemma WidenMeans(bytes: seq<bv8>)
    ensures forall k :: 0 <= k < |bytes| ==> Value(Widen(bytes)[k]) == 256 * ByteValue(bytes[k])
  {
    hide Value, ByteValue, WidenByte;
    forall k | 0 <= k < |bytes| ensures Value(Widen(bytes)[k]) == 256 * ByteValue(bytes[k]) {
      WidenByteMeans(bytes[k]);
    }
  }

  lemma WidenByteMeans(b: bv8)
    ensures Value(WidenByte(b)) == 256 * ByteValue(b)
  {
  }

  // ---- The loops ----

  /** Direct copy of the 16-bit format, items pairs already in the buffer, n more to come. */
  method CopyCs16(buf: array<bv16>, items: nat, src: seq<bv16>, n: nat)
    requires 2 * n <= |src| && 2 * items + 2 * n <= buf.Length
    modifies buf
    ensures buf[..] == Direct(old(buf[..]), items, src[..2 * n])
  {
    for w := 0 to 2 * n
      invariant buf[..] == Direct(old(buf[..]), items, src[..w])
    {
      buf[2 * items + w] := src[w];
    }
  }

  /** Direct copy of the 8-bit format. */
  method CopyCs8(buf: array<bv16>, items: nat, src: seq<bv8>, n: nat)
    requires 2 * n <= |src| && 2 * items + 2 * n <= buf.Length
    modifies buf
    ensures buf[..] == Direct(old(buf[..]), items, Widen(src[..2 * n]))
  {
    for w := 0 to 2 * n
      invariant buf[..] == Direct(old(buf[..]), items, Widen(src[..w]))
    {
      buf[2 * items + w] := WidenByte(src[w]);
    }
  }

  /** Direct copy of the 12-bit format. */
  method CopyCs12(buf: array<bv16>, items: nat, src: seq<bv8>, n: nat)
    requires 3 * n <= |src| && 2 * items + 2 * n <= buf.Length
    modifies buf
    ensures buf[..] == Direct(old(buf[..]), items, Unpack(src[..3 * n], n))
  {
    hide Unpack, UnpackI, UnpackQ;
    ghost var goal := Unpack(src[..3 * n], n);
    for j := 0 to n
      invariant forall w :: 0 <= w < 2 * j ==> buf[2 * items + w] == goal[w]
      invariant forall w :: 0 <= w < buf.Length && !(2 * items <= w < 2 * items + 2 * j) ==> buf[w] == old(buf[w])
    {
      var b0, b1, b2 := src[3 * j], src[3 * j + 1], src[3 * j + 2];
      UnpackAt(src[..3 * n], n, j);
      buf[2 * items + 2 * j] := UnpackI(b0, b1);
      buf[2 * items + 2 * j + 1] := UnpackQ(b1, b2);
    }
  }

  /** One per-channel loop of the generic path, for words already in 16-bit form. */
  method CopyLane(buf: array<bv16>, at: nat, src: seq<bv16>, k: nat, convert: bv16 -> bv16)
    requires |src| % 2 == 0 && k < 2 && (|src| > 0 ==> at + |src| <= buf.Length + 1)
    modifies buf
    ensures buf[..] == Stride(old(buf[..]), at, Lane(src, k, convert))
  {
    ghost var was := buf[..];
    ghost var lane := Lane(src, k, convert);
    for j := 0 to |src| / 2
      invariant forall w :: 0 <= w < buf.Length ==>
                  buf[w] == if at <= w < at + 2 * j && (w - at) % 2 == 0 then lane[(w - at) / 2] else was[w]
    {
      buf[at + 2 * j] := convert(src[2 * j + k]);
    }
  }

  /** The generic path of send for one I/Q channel. */
  method CopyGeneric(buf: array<bv16>, items: nat, src: seq<bv16>, layout: Layout)
    requires InBounds(buf[..], items, src, layout)
    modifies buf
    ensures buf[..] == Generic(old(buf[..]), items, src, layout)
  {
    hide Stride, Lane;
    CopyLane(buf, layout.first0 + 2 * items, src, 0, layout.convert0);
    CopyLane(buf, layout.first1 + 2 * items, src, 1, layout.convert1);
  }

  // ---- What the strided loops write ----

  /** The two lanes are the two words of an item, in either order. */
  predicate Lanes(layout: Layout) {
    layout.first0 + layout.first1 == 1
  }

  /** The words of src, each converted by its lane and at its lane's place in the item. */
  function Placed(layout: Layout, src: seq<bv16>): (r: seq<bv16>)
    requires |src| % 2 == 0
    ensures |r| == |src|
  {
    seq(|src|, w requires 0 <= w < |src| =>
      if w % 2 == layout.first0 then layout.convert0(src[w - w % 2]) else layout.convert1(src[w - w % 2 + 1]))
  }

  /** The two strided loops append the placed words: together they fill exactly the stretch that a direct copy fills. */
  lemma GenericAppends(layout: Layout, buf: seq<bv16>, items: nat, src: seq<bv16>)
    requires Lanes(layout) && |src| % 2 == 0 && 2 * items + |src| <= |buf|
    ensures InBounds(buf, items, src, layout)
    ensures Generic(buf, items, src, layout) == Direct(buf, items, Placed(layout, src))
  {
    hide Stride, Lane, Placed;
    var placed := Placed(layout, src);
    forall w | 0 <= w < |buf|
      ensures Generic(buf, items, src, layout)[w] == Direct(buf, items, placed)[w]
    {
      if 2 * items <= w < 2 * items + |src| {
        var j := (w - 2 * items) / 2;
        ItemAt(layout, buf, items, src, j);
        assert w == 2 * items + 2 * j || w == 2 * items + 2 * j + 1;
      } else {
        OutsideAt(layout, buf, items, src, w);
      }
    }
  }

  /** A word outside the stretch stays as it was. */
  lemma OutsideAt(layout: Layout, buf: seq<bv16>, items: nat, src: seq<bv16>, w: nat)
    requires Lanes(layout) && InBounds(buf, items, src, layout)
    requires w < |buf| && !(2 * items <= w < 2 * items + |src|)
    ensures Generic(buf, items, src, layout)[w] == buf[w]
  {
    hide Stride;
    var at0, at1 := layout.first0 + 2 * items, layout.first1 + 2 * items;
    var lane0, lane1 := Lane(src, 0, layout.convert0), Lane(src, 1, layout.convert1);
    assert w == 2 * items + |src| ==> (w - (2 * items + 1)) % 2 == 1 || |src| == 0;
    StrideMiss(buf, at0, lane0, w);
    StrideMiss(Stride(buf, at0, lane0), at1, lane1, w);
  }

  lemma StrideHit(buf: seq<bv16>, at: nat, src: seq<bv16>, j: nat)
    requires at + 2 * |src| <= |buf| + 1 && j < |src|
    ensures Stride(buf, at, src)[at + 2 * j] == src[j]
  {
    assert (at + 2 * j - at) / 2 == j;
  }

  lemma StrideMiss(buf: seq<bv16>, at: nat, src: seq<bv16>, w: nat)
    requires (|src| > 0 ==> at + 2 * |src| <= |buf| + 1) && w < |buf|
    requires !(at <= w < at + 2 * |src|) || (w - at) % 2 == 1
    ensures Stride(buf, at, src)[w] == buf[w]
  {
  }

  lemma PlacedAt(layout: Layout, src: seq<bv16>, j: nat)
    requires Lanes(layout) && |src| % 2 == 0 && 2 * j < |src|
    ensures Placed(layout, src)[2 * j + layout.first0] == layout.convert0(src[2 * j])
    ensures Placed(layout, src)[2 * j + layout.first1] == layout.convert1(src[2 * j + 1])
  {
    var v0, v1 := 2 * j + layout.first0, 2 * j + layout.first1;
    assert v0 % 2 == layout.first0 && v0 - v0 % 2 == 2 * j;
    assert v1 % 2 == layout.first1 && v1 - v1 % 2 == 2 * j;
  }

  /** The two words of item j after the strided loops. */
  lemma ItemAt(layout: Layout, buf: seq<bv16>, items: nat, src: seq<bv16>, j: nat)
    requires Lanes(layout) && |src| % 2 == 0 && 2 * items + |src| <= |buf| && 2 * j < |src|
    requires InBounds(buf, items, src, layout)
    ensures var r, at := Generic(buf, items, src, layout), 2 * items + 2 * j;
            r[at] == Placed(layout, src)[2 * j] && r[at + 1] == Placed(layout, src)[2 * j + 1]
  {
    hide Stride, Placed;
    var at0, at1 := layout.first0 + 2 * items, layout.first1 + 2 * items;
    var lane0, lane1 := Lane(src, 0, layout.convert0), Lane(src, 1, layout.convert1);
    PlacedAt(layout, src, j);
    StrideHit(buf, at0, lane0, j);
    var mid := Stride(buf, at0, lane0);
    StrideHit(mid, at1, lane1, j);
    assert (at0 + 2 * j - at1) % 2 == 1;
    StrideMiss(mid, at1, lane1, at0 + 2 * j);
  }

  /** Conversion and placing go item by item. */
  lemma PlacedPrefix(layout: Layout, src: seq<bv16>, n: nat)
    requires |src| % 2 == 0 && 2 * n <= |src|
    ensures Placed(layout, src[..2 * n]) == Placed(layout, src)[..2 * n]
  {
  }

  // ---- The fast path against the generic path ----

  /** Contiguous I/Q words and conversions that change nothing. */
  ghost predicate Plain(layout: Layout) {
    && layout.first0 == 0 && layout.first1 == 1
    && (forall x :: layout.convert0(x) == x) && (forall x :: layout.convert1(x) == x)
  }

  /** The test by which the driver chooses the direct copy, for two lanes four bytes apart. */
  predicate HasDirectCopy(layout: Layout) {
    layout.first0 == 0 && layout.convert0(0x1234) == 0x1234
  }

  ghost predicate Agree(layout: Layout, buf: seq<bv16>, items: nat, src: seq<bv16>) {
    InBounds(buf, items, src, layout) ==> Generic(buf, items, src, layout) == Direct(buf, items, src)
  }

  /** On a plain layout the direct copy leaves the same buffer as the strided loops, for every item count and fill
      level; in the 8-bit format src is the widened bytes. */
  lemma FastRefinesGeneric(layout: Layout, buf: seq<bv16>, items: nat, src: seq<bv16>)
    requires Plain(layout)
    ensures Agree(layout, buf, items, src)
  {
    if InBounds(buf, items, src, layout) {
      GenericAppends(layout, buf, items, src);
      PlacedPlain(layout, src);
    }
  }

  lemma PlacedPlain(layout: Layout, src: seq<bv16>)
    requires Plain(layout) && |src| % 2 == 0
    ensures Placed(layout, src) == src
  {
    forall w | 0 <= w < |src| ensures Placed(layout, src)[w] == src[w] {
    }
  }

  /** The plain layout is exactly what the direct copy needs: for any other layout whose first lane starts the buffer,
      some buffer and samples tell the two paths apart. */
  lemma FastPathExact(layout: Layout)
    requires layout.first0 == 0
    ensures (forall buf, items, src :: Agree(layout, buf, items, src)) <==> Plain(layout)
  {
    if Plain(layout) {
      forall buf, items, src ensures Agree(layout, buf, items, src) {
        FastRefinesGeneric(layout, buf, items, src);
      }
    } else {
      Distinguish(layout);
    }
  }

  lemma Distinguish(layout: Layout)
    requires layout.first0 == 0 && !Plain(layout)
    ensures exists buf, items: nat, src :: !Agree(layout, buf, items, src)
  {
    var buf: seq<bv16> := seq(layout.first1 + 2, _ => 0 as bv16);
    if layout.first1 != 1 {
      var src := [0 as bv16, 1 as bv16];
      assert InBounds(buf, 0, src, layout);
      assert Direct(buf, 0, src)[1] == 1;
      assert Generic(buf, 0, src, layout)[1] == 0;
      assert !Agree(layout, buf, 0, src);
    } else if x :| layout.convert0(x) != x {
      OneItem(layout, buf, x, 0);
    } else {
      var x :| layout.convert1(x) != x;
      OneItem(layout, buf, 0, x);
    }
  }

  lemma OneItem(layout: Layout, buf: seq<bv16>, i: bv16, q: bv16)
    requires layout.first0 == 0 && layout.first1 == 1 && |buf| == 3
    requires layout.convert0(i) != i || layout.convert1(q) != q
    ensures !Agree(layout, buf, 0, [i, q])
  {
    var src := [i, q];
    assert InBounds(buf, 0, src, layout);
    assert Direct(buf, 0, src)[0] == i && Direct(buf, 0, src)[1] == q;
    var lane0, lane1 := Lane(src, 0, layout.convert0), Lane(src, 1, layout.convert1);
    assert lane0[0] == layout.convert0(i) && lane1[0] == layout.convert1(q);
    assert Generic(buf, 0, src, layout)[0] == layout.convert0(i);
    assert Generic(buf, 0, src, layout)[1] == layout.convert1(q);
  }

  /** What the library does to a sample for a channel of 13 bits: it masks the upper ones. */
  function Mask13(x: bv16): bv16 {
    x & 0x1FFF
  }

  /** The driver's own test, one probe word through one lane, does not imply it: two contiguous channels of 13 bits pass
      the probe, and some buffer and samples tell the two paths apart. */
  lemma ProbeNotEnough()
    ensures var narrow := Layout(0, 1, Mask13, Mask13);
            HasDirectCopy(narrow) && exists buf, items: nat, src :: !Agree(narrow, buf, items, src)
  {
    var narrow := Layout(0, 1, Mask13, Mask13);
    assert Mask13(0x1234) == 0x1234;
    assert Mask13(0x8000) != 0x8000;
    assert narrow.convert0(0x8000) != 0x8000;
    Distinguish(narrow);
  }
}
