/** NetSDR packet numbers: 16 bits, 0 only at the start, 65535 followed by 1. */
module NetSdrSequence {

  /** The number after p. */
  function Next(p: nat): nat {
    if p == 65535 then 1 else p + 1
  }

  /** The number k packets after p. */
  function After(p: nat, k: nat): nat {
    if k == 0 then p else Next(After(p, k - 1))
  }

  /** The unsigned 16-bit difference processUDP forms. */
  function Diff(sequence: nat, last: nat): nat
    requires sequence < 65536 && last < 65536
  {
    (sequence + 65536 - last) % 65536
  }

  /** What it keeps of a packet's number. */
  function Keep(sequence: nat): nat {
    if sequence == 65535 then 0 else sequence
  }

  /** What it prints for a packet, 0 for nothing, when it last kept `last`. */
  function Report(last: nat, number: nat): nat
    requires last < 65536 && number < 65536
  {
    if Diff(number, last) > 1 then Diff(number, last) else 0
  }

  class Tracker {
    var sequence: nat

    ghost predicate Valid()
      reads this
    {
      sequence < 65535
    }

    constructor ()
      ensures Valid() && sequence == 0
    {
      sequence := 0;
    }

    /** The sequence tracking of processUDP; reported is the number it prints, 0 when it prints nothing. */
    method Track(number: nat) returns (reported: nat)
      requires Valid() && number < 65536
      modifies this
      ensures Valid() && sequence == Keep(number)
      ensures reported == Report(old(sequence), number)
    {
      var diff := (number + 65536 - sequence) % 65536;
      reported := 0;
      if diff > 1 {
        reported := diff;
      }
      sequence := if number == 65535 then 0 else number;
    }
  }

  /** Closed form of the numbering: a cycle of 65535 numbers. */
  lemma {:induction false} AfterIs(p: nat, k: nat)
    requires p < 65536 && k > 0
    ensures After(p, k) == (Keep(p) + k - 1) % 65535 + 1
  {
    if k > 1 {
      AfterIs(p, k - 1);
    } else {
      assert After(p, 0) == p;
    }
  }

  /** A gap after number p that leaves no trace in the 16-bit difference. */
  predicate Unseen(p: nat, missing: nat) {
    missing % 65535 == 0 || (missing % 65535 == 65534 && Keep(p) != 0)
  }

  /** The report after any number of missing packets, exactly: a gap goes unreported only if it is a multiple of the
      cycle, or one short of it when the last number was not the last of a cycle. Otherwise the printed number is
      the gap plus one, or plus two when the numbering wrapped. */
  lemma GapReportedExactly(p: nat, missing: nat)
    requires p < 65536
    ensures var q := After(p, missing + 1);
            && q < 65536
            && (Diff(q, Keep(p)) > 1 <==> !Unseen(p, missing))
            && (missing < 65534 ==>
                  Diff(q, Keep(p)) == if Keep(p) + missing < 65535 then missing + 1 else missing + 2)
  {
    hide After;
    AfterGap(p, missing);
    var x := Keep(p) + missing % 65535;
    var q := After(p, missing + 1);
    if x < 65535 {
      assert q + 65536 - Keep(p) == 65536 + (missing % 65535 + 1);
    } else {
      assert q + 65536 - Keep(p) == missing % 65535 + 2;
    }
  }

  /** The number after a gap, by what is left of the gap over whole cycles. */
  lemma AfterGap(p: nat, missing: nat)
    requires p < 65536
    ensures var x := Keep(p) + missing % 65535;
            After(p, missing + 1) == if x < 65535 then x + 1 else x - 65534
  {
    hide After;
    AfterIs(p, missing + 1);
    WholeCycles(Keep(p) + missing % 65535, missing / 65535);
  }

  lemma {:induction false} WholeCycles(x: nat, k: nat)
    ensures (x + 65535 * k) % 65535 == x % 65535
  {
    if k > 0 {
      WholeCycles(x, k - 1);
    }
  }

  // ---- Whole streams ----

  /** The numbers of the packets that arrive: the first one, then gaps[i] missing packets before the next. */
  function Stream(first: nat, gaps: seq<nat>): (numbers: seq<nat>)
    ensures |numbers| == |gaps| + 1 && numbers[0] == first
    decreases |gaps|
  {
    if gaps == [] then [first] else [first] + Stream(After(first, gaps[0] + 1), gaps[1..])
  }

  predicate Numbers16(numbers: seq<nat>) {
    forall i :: 0 <= i < |numbers| ==> numbers[i] < 65536
  }

  /** What a tracker that last kept `last` prints for each of the packets. */
  function Reports(last: nat, numbers: seq<nat>): (reports: seq<nat>)
    requires last < 65536 && Numbers16(numbers)
    ensures |reports| == |numbers|
    decreases |numbers|
  {
    if numbers == [] then [] else [Report(last, numbers[0])] + Reports(Keep(numbers[0]), numbers[1..])
  }

  /** The number printed after a gap of fewer than 65534 packets: nothing for none, otherwise one more than were
      lost, or two more if the numbering wrapped within the gap. */
  function Printed(p: nat, missing: nat): nat {
    if missing == 0 then 0 else if Keep(p) + missing < 65535 then missing + 1 else missing + 2
  }

  /** A stream with any gaps, from any state of the tracker: each packet is reported exactly if the gap before it can be
      seen, and with which number. */
  lemma {:induction false} StreamReports(last: nat, first: nat, gaps: seq<nat>)
    requires last < 65536 && first < 65536
    ensures Numbers16(Stream(first, gaps))
    ensures Reports(last, Stream(first, gaps))[0] == Report(last, first)
    ensures forall i :: 0 <= i < |gaps| ==>
              (Reports(last, Stream(first, gaps))[i + 1] > 0 <==> !Unseen(Stream(first, gaps)[i], gaps[i]))
    ensures forall i :: 0 <= i < |gaps| && gaps[i] < 65534 ==>
              Reports(last, Stream(first, gaps))[i + 1] == Printed(Stream(first, gaps)[i], gaps[i])
    decreases |gaps|
  {
    hide After, Unseen, Diff;
    if gaps != [] {
      var second := After(first, gaps[0] + 1);
      GapReportedExactly(first, gaps[0]);
      StreamReports(Keep(first), second, gaps[1..]);
      var numbers, rest := Stream(first, gaps), Stream(second, gaps[1..]);
      assert numbers == [first] + rest;
      assert numbers[1..] == rest;
      var r := Reports(Keep(first), rest);
      assert Reports(last, numbers) == [Report(last, first)] + r;
      assert r[0] == Report(Keep(first), second);
      forall i | 0 <= i < |gaps|
        ensures Reports(last, numbers)[i + 1] > 0 <==> !Unseen(numbers[i], gaps[i])
        ensures gaps[i] < 65534 ==> Reports(last, numbers)[i + 1] == Printed(numbers[i], gaps[i])
      {
        if i > 0 {
          assert gaps[1..][i - 1] == gaps[i] && rest[i - 1] == numbers[i];
        }
      }
    }
  }

  function NoGaps(n: nat): (gaps: seq<nat>)
    ensures |gaps| == n && forall i :: 0 <= i < n ==> gaps[i] == 0
  {
    seq(n, _ => 0)
  }

  /** An in-order stream, however long and however often it wraps, is reported by a fresh tracker nowhere but at its
      first packet, and there exactly if its number is above 1. */
  lemma InOrderNeverReported(first: nat, n: nat)
    requires first < 65536
    ensures var numbers := Stream(first, NoGaps(n));
            && Numbers16(numbers)
            && Reports(0, numbers)[0] == (if first > 1 then first else 0)
            && (forall i :: 0 < i <= n ==> Reports(0, numbers)[i] == 0)
            && ((forall i :: 0 <= i <= n ==> Reports(0, numbers)[i] == 0) <==> first <= 1)
  {
    hide After, Reports, Stream;
    StreamReports(0, first, NoGaps(n));
    forall i | 0 < i <= n ensures Reports(0, Stream(first, NoGaps(n)))[i] == 0 {
      assert Unseen(Stream(first, NoGaps(n))[i - 1], NoGaps(n)[i - 1]);
      assert Reports(0, Stream(first, NoGaps(n)))[(i - 1) + 1] == 0;
    }
  }

  /** While gaps are of at most 65533 packets, reports after the first packet are exactly at the gaps, wherever in the
      numbering they fall. */
  lemma GapAlwaysReported(first: nat, gaps: seq<nat>)
    requires first < 65536 && forall i :: 0 <= i < |gaps| ==> gaps[i] <= 65533
    ensures Numbers16(Stream(first, gaps))
    ensures forall i :: 0 <= i < |gaps| ==> (Reports(0, Stream(first, gaps))[i + 1] > 0 <==> gaps[i] > 0)
  {
    hide After, Reports, Stream;
    StreamReports(0, first, gaps);
    forall i | 0 <= i < |gaps|
      ensures Reports(0, Stream(first, gaps))[i + 1] > 0 <==> gaps[i] > 0
    {
      assert Unseen(Stream(first, gaps)[i], gaps[i]) <==> gaps[i] == 0;
    }
  }
}
