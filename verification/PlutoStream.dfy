/** The Pluto transmit streamer object, for one I/Q channel. */
module PlutoStream {
  import opened Sequences
  import opened PlutoPacking
  import opened PlutoCopy
  import opened PlutoTransmit

  datatype Format = CS16 | CS12 | CS8

  /** The caller's samples: words in CS16, bytes otherwise. */
  datatype Samples = Words16(ws: seq<bv16>) | Bytes8(bs: seq<bv8>)

  /** Enough samples for n items. */
  predicate Holds(format: Format, src: Samples, n: nat) {
    match format
    case CS16 => src.Words16? && 2 * n <= |src.ws|
    case CS12 => src.Bytes8? && 3 * n <= |src.bs|
    case CS8 => src.Bytes8? && 2 * n <= |src.bs|
  }

  /** The samples of n items in the form the device takes. */
  function DeviceWords(format: Format, src: Samples, n: nat): (ws: seq<bv16>)
    requires Holds(format, src, n)
    ensures |ws| == 2 * n
  {
    match format
    case CS16 => src.ws[..2 * n]
    case CS12 => Unpack(src.bs[..3 * n], n)
    case CS8 => Widen(src.bs[..2 * n])
  }

  /** What the words in device form are: 16-bit samples as they are, 8-bit ones times 256, and 12-bit ones from
      their places in three bytes to the top of their words. */
  lemma DeviceMeans(format: Format, src: Samples, n: nat)
    requires Holds(format, src, n)
    ensures var ws := DeviceWords(format, src, n);
            match format
            case CS16 => forall k :: 0 <= k < 2 * n ==> ws[k] == src.ws[k]
            case CS8 => forall k :: 0 <= k < 2 * n ==> Value(ws[k]) == 256 * ByteValue(src.bs[k])
            case CS12 => forall j :: 0 <= j < n ==> InPlace(src.bs[3 * j], src.bs[3 * j + 1], src.bs[3 * j + 2],
                                                            ws[2 * j], ws[2 * j + 1])
  {
    hide Value, ByteValue, WidenByte, UnpackI, UnpackQ, InPlace;
    match format
    case CS16 =>
    case CS8 => WidenMeans(src.bs[..2 * n]);
    case CS12 =>
      forall j | 0 <= j < n
        ensures InPlace(src.bs[3 * j], src.bs[3 * j + 1], src.bs[3 * j + 2],
                        Unpack(src.bs[..3 * n], n)[2 * j], Unpack(src.bs[..3 * n], n)[2 * j + 1])
      {
        UnpackAt(src.bs[..3 * n], n, j);
        InPlaceIs(src.bs[3 * j], src.bs[3 * j + 1], src.bs[3 * j + 2]);
      }
  }

  /** The words i and q hold the low and the high 12 bits of the three bytes, moved up by four places. */
  predicate InPlace(b0: bv8, b1: bv8, b2: bv8, i: bv16, q: bv16) {
    i == ((Little(b0, b1, b2) & 0xFFF) as bv16) << 4 && q == ((Little(b0, b1, b2) >> 12) as bv16) << 4
  }

  lemma InPlaceIs(b0: bv8, b1: bv8, b2: bv8)
    ensures InPlace(b0, b1, b2, UnpackI(b0, b1), UnpackQ(b1, b2))
  {
    hide UnpackI, UnpackQ;
    UnpackLayout(b0, b1, b2);
  }

  /** The first items of the samples are the first words. */
  lemma {:induction false} DevicePrefix(format: Format, src: Samples, n: nat, m: nat)
    requires m <= n && Holds(format, src, n)
    ensures DeviceWords(format, src, m) == DeviceWords(format, src, n)[..2 * m]
  {
    if format == CS12 {
      UnpackPrefix(src.bs[..3 * n], n, m);
      assert src.bs[..3 * n][..3 * m] == src.bs[..3 * m];
    }
  }

  lemma {:induction false} UnpackPrefix(bytes: seq<bv8>, n: nat, m: nat)
    requires |bytes| == 3 * n && m <= n
    ensures Unpack(bytes[..3 * m], m) == Unpack(bytes, n)[..2 * m]
    decreases m
  {
    hide UnpackI, UnpackQ;
    if m > 0 {
      assert bytes[..3 * m][3..] == bytes[3..][..3 * (m - 1)];
      UnpackPrefix(bytes[3..], n - 1, m - 1);
    }
  }

  /** The call a takes s to t and returns ret. */
  ghost predicate Did(s: Tx, a: Action, t: Tx, ret: int) {
    && Inv(s) && Legal(s, a) && t == Apply(s, a)
    && ret == match a
              case Send(words, endBurst, reply, _) => SendResult(s, words, endBurst, reply)
              case Flush(reply, _) => if s.items > 0 then reply else 0
  }

  class TxStreamer {
    const bufSize: nat
    const format: Format
    const layout: Layout
    const directCopy: bool
    var buf: array<bv16>
    var items: nat
    ghost var model: Tx

    ghost predicate Valid()
      reads this, buf
    {
      && Inv(model) && model.bufSize == bufSize && model.items == items && model.buf == buf[..]
      && Lanes(layout) && directCopy == HasDirectCopy(layout)
    }

    constructor (bufSize: nat, format: Format, layout: Layout, buf: array<bv16>)
      requires bufSize > 0 && Lanes(layout) && buf.Length == 2 * bufSize
      ensures Valid() && this.buf == buf && this.format == format && this.layout == layout
      ensures model == Init(bufSize, buf[..])
    {
      this.bufSize, this.format, this.layout := bufSize, format, layout;
      this.directCopy := HasDirectCopy(layout);
      this.buf, this.items := buf, 0;
      this.model := Init(bufSize, buf[..]);
      assert Payloads([]) + buf[..0] == [];
    }

    /** send_buf; next is the block the library offers after a push. */
    method PushBuffer(reply: int, next: array<bv16>) returns (ret: int)
      requires buf.Length == 2 * bufSize && items <= bufSize && next.Length == 2 * bufSize && next != buf
      modifies this`buf, this`items, buf
      ensures items == 0
      ensures old(items) > 0 ==> buf == next && ret == reply
      ensures old(items) > 0 ==> old(buf)[..] == old(buf[..2 * items]) + Zeros(2 * (bufSize - old(items)))
      ensures old(items) == 0 ==> buf == old(buf) && ret == 0 && buf[..] == old(buf[..])
      ensures next[..] == old(next[..])
    {
      if items == 0 {
        return 0;
      }
      ghost var was := buf[..];
      for w := 2 * items to 2 * bufSize
        modifies buf
        invariant buf[..] == was[..2 * items] + Zeros(w - 2 * items) + was[w..]
      {
        buf[w] := 0;
      }
      items := 0;
      buf := next;
      ret := reply;
    }

    /** flush. */
    method FlushBuffer(reply: int, next: array<bv16>) returns (ret: int)
      requires Valid() && next.Length == 2 * bufSize && next != buf
      modifies this`buf, this`items, this`model, buf
      ensures Valid() && Did(old(model), Flush(reply, next[..]), model, ret)
      ensures items == 0 && ret == if old(items) > 0 then reply else 0
    {
      hide Payloads, WellFormed;
      ghost var a := Flush(reply, next[..]);
      StepKeeps(model, a);
      model := Apply(model, a);
      ret := PushBuffer(reply, next);
    }

    /** The words that n items come to in the buffer: as the device takes them, and on the generic path converted and
        placed lane by lane. */
    ghost function StagedWords(src: Samples, n: nat): (ws: seq<bv16>)
      requires Holds(format, src, n)
      ensures |ws| == 2 * n
    {
      if directCopy then DeviceWords(format, src, n) else Placed(layout, DeviceWords(format, src, n))
    }

    /** On a plain layout the path makes no difference to them. */
    lemma StagedPlain(src: Samples, n: nat)
      requires Holds(format, src, n) && Plain(layout)
      ensures StagedWords(src, n) == DeviceWords(format, src, n)
    {
      hide DeviceWords, Placed;
      PlacedPlain(layout, DeviceWords(format, src, n));
    }

    lemma StagedPrefix(src: Samples, n: nat, m: nat)
      requires m <= n && Holds(format, src, n)
      ensures Holds(format, src, m) && StagedWords(src, m) == StagedWords(src, n)[..2 * m]
    {
      hide DeviceWords, Placed;
      DevicePrefix(format, src, n, m);
      PlacedPrefix(layout, DeviceWords(format, src, n), m);
    }

    /** The copy of n items behind those already staged, in the chosen format and by the chosen path. */
    method CopyIn(src: Samples, n: nat)
      requires Lanes(layout) && buf.Length == 2 * bufSize && Holds(format, src, n) && items + n <= bufSize
      requires format == CS12 ==> directCopy
      modifies buf
      ensures buf[..] == Direct(old(buf[..]), items, StagedWords(src, n))
    {
      hide Widen, Unpack, Direct, Generic, Placed;
      if directCopy {
        match format
        case CS16 => CopyCs16(buf, items, src.ws, n);
        case CS12 => CopyCs12(buf, items, src.bs, n);
        case CS8 => CopyCs8(buf, items, src.bs, n);
      } else {
        var words := if format == CS16 then src.ws[..2 * n] else Widen(src.bs[..2 * n]);
        GenericAppends(layout, buf[..], items, words);
        CopyGeneric(buf, items, words, layout);
      }
    }

    /** send of numElems items; thrown stands for the exception of CS12 without direct copy. */
    method Send(src: Samples, numElems: nat, endBurst: bool, reply: int, next: array<bv16>)
      returns (ret: int, thrown: bool)
      requires Valid() && Holds(format, src, numElems) && next.Length == 2 * bufSize && next != buf
      modifies this`buf, this`items, this`model, buf
      ensures thrown <==> format == CS12 && !directCopy
      ensures Valid()
      ensures thrown ==> model == old(model)
      ensures !thrown && ret != -1 ==>
                0 <= ret <= numElems && model.accepted == old(model).accepted + StagedWords(src, numElems)[..2 * ret]
      ensures !thrown ==>
                Did(old(model), PlutoTransmit.Send(StagedWords(src, numElems), endBurst, reply, next[..]), model, ret)
    {
      hide Inv, Apply, Stage, PushDue, HasDirectCopy, Direct, StagedWords, Holds;
      if format == CS12 && !directCopy {
        return 0, true;
      }
      thrown := false;
      ghost var s := model;
      Bounds(s);
      var n := Min(bufSize - items, numElems);
      ghost var words := StagedWords(src, numElems);
      ghost var a := PlutoTransmit.Send(words, endBurst, reply, next[..]);
      StepKeeps(s, a);
      StagedPrefix(src, numElems, n);
      SendFacts(s, a);
      SendCounts(s, a);
      CopyIn(src, n);
      items := items + n;
      model := Apply(s, a);
      if items == bufSize || (endBurst && numElems == n) {
        var pushed := PushBuffer(reply, next);
        ret := if pushed < 0 || pushed != bufSize then -1 else n;
      } else {
        ret := n;
      }
    }

    lemma Bounds(s: Tx)
      requires Inv(s)
      ensures s.items < s.bufSize && |s.buf| == 2 * s.bufSize
    {
    }

    /** A send in the fields' terms: what is copied, when a push is due, and what is left afterwards. */
    lemma SendFacts(s: Tx, a: Action)
      requires Inv(s) && Legal(s, a) && a.Send?
      ensures var n, t := Taken(s, a.words), Apply(s, a);
              && n == Min(s.bufSize - s.items, |a.words| / 2)
              && (PushDue(s, a.words, a.endBurst) <==>
                    s.items + n == s.bufSize || (a.endBurst && |a.words| / 2 == n))
              && t.bufSize == s.bufSize
              && (if PushDue(s, a.words, a.endBurst) && s.items + n > 0 then t.items == 0 && t.buf == a.next
                  else t.items == s.items + n && t.buf == Direct(s.buf, s.items, a.words[..2 * n]))
    {
      hide Payloads, WellFormed;
    }
  }
}
