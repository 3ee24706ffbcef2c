/** Comma-separated lists of device properties. */
module MultiCsv {

  /** std::isspace in the C locale. */
  predicate IsSpace(c: char) {
    c == ' ' || '\t' <= c <= '\r'
  }

  /** The pieces between commas; tmp is the piece being accumulated. */
  function Pieces(s: string, tmp: string): seq<string>
    decreases |s|
  {
    if s == "" then (if tmp == "" then [] else [tmp])
    else if s[0] == ',' then [tmp] + Pieces(s[1..], "")
    else Pieces(s[1..], tmp + [s[0]])
  }

  function TrimLeft(s: string): string {
    if s != "" && IsSpace(s[0]) then TrimLeft(s[1..]) else s
  }

  function TrimRight(s: string): string {
    if s != "" && IsSpace(s[|s| - 1]) then TrimRight(s[..|s| - 1]) else s
  }

  function Trim(s: string): string {
    TrimRight(TrimLeft(s))
  }

  function TrimAll(ss: seq<string>): (ts: seq<string>)
    ensures |ts| == |ss|
  {
    seq(|ss|, i requires 0 <= i < |ss| => Trim(ss[i]))
  }

  function Split(s: string): seq<string> {
    TrimAll(Pieces(s, ""))
  }

  /** The join loop, with its accumulator. */
  function JoinOnto(acc: string, xs: seq<string>): string
    decreases |xs|
  {
    if xs == [] then acc
    else JoinOnto((if acc != "" then acc + ", " else acc) + xs[0], xs[1..])
  }

  function Join(xs: seq<string>): string {
    JoinOnto("", xs)
  }

  /** csvSplit. */
  method CsvSplit(s: string) returns (out: seq<string>)
    ensures out == Split(s)
  {
    out := [];
    var tmp := "";
    for i := 0 to |s|
      invariant out + Pieces(s[i..], tmp) == Pieces(s, "")
    {
      assert s[i..][1..] == s[i + 1..];
      if s[i] == ',' {
        out := out + [tmp];
        tmp := "";
      } else {
        tmp := tmp + [s[i]];
      }
    }
    if tmp != "" {
      out := out + [tmp];
    }
    assert out == Pieces(s, "");
    ghost var raw := out;
    for k := 0 to |out|
      invariant |out| == |raw| && out == TrimAll(raw)[..k] + raw[k..]
    {
      var w := out[k];
      while w != "" && IsSpace(w[0])
        invariant TrimLeft(w) == TrimLeft(raw[k])
        decreases |w|
      {
        w := w[1..];
      }
      while w != "" && IsSpace(w[|w| - 1])
        invariant TrimRight(w) == Trim(raw[k])
        decreases |w|
      {
        w := w[..|w| - 1];
      }
      out := out[k := w];
    }
  }

  /** csvJoin. */
  method CsvJoin(xs: seq<string>) returns (out: string)
    ensures out == Join(xs)
  {
    out := "";
    for i := 0 to |xs|
      invariant JoinOnto(out, xs[i..]) == Join(xs)
    {
      assert xs[i..][1..] == xs[i + 1..];
      if out != "" {
        out := out + ", ";
      }
      out := out + xs[i];
    }
  }

  // ---- The round trip ----

  predicate Trimmed(x: string) {
    x != "" ==> !IsSpace(x[0]) && !IsSpace(x[|x| - 1])
  }

  predicate Clean(x: string) {
    ',' !in x && Trimmed(x)
  }

  predicate AllClean(xs: seq<string>) {
    forall i :: 0 <= i < |xs| ==> Clean(xs[i])
  }

  function DropLeadingEmpty(xs: seq<string>): seq<string> {
    if xs != [] && xs[0] == "" then DropLeadingEmpty(xs[1..]) else xs
  }

  /** What the join appends once something has been written. */
  function Suffix(xs: seq<string>): string {
    if xs == [] then "" else ", " + xs[0] + Suffix(xs[1..])
  }

  lemma {:induction false} JoinAppends(acc: string, xs: seq<string>)
    requires acc != ""
    ensures JoinOnto(acc, xs) == acc + Suffix(xs)
    decreases |xs|
  {
    if xs != [] {
      JoinAppends(acc + ", " + xs[0], xs[1..]);
      assert acc + ", " + xs[0] + Suffix(xs[1..]) == acc + (", " + xs[0] + Suffix(xs[1..]));
    }
  }

  lemma {:induction false} PiecesSkip(x: string, rest: string, tmp: string)
    requires ',' !in x
    ensures Pieces(x + rest, tmp) == Pieces(rest, tmp + x)
    decreases |x|
  {
    if x == "" {
      assert x + rest == rest && tmp + x == tmp;
    } else {
      assert (x + rest)[1..] == x[1..] + rest;
      PiecesSkip(x[1..], rest, tmp + [x[0]]);
      assert tmp + [x[0]] + x[1..] == tmp + x;
    }
  }

  /** Splitting what the join wrote after the piece tmp. */
  lemma {:induction false} PiecesOfSuffix(tmp: string, xs: seq<string>)
    requires tmp != "" && AllClean(xs)
    ensures Pieces(Suffix(xs), tmp) == [tmp] + seq(|xs|, i requires 0 <= i < |xs| => " " + xs[i])
    decreases |xs|
  {
    if xs != [] {
      var rest := Suffix(xs[1..]);
      assert Suffix(xs)[1..] == " " + xs[0] + rest;
      assert Clean(xs[0]);
      PiecesSkip(" " + xs[0], rest, "");
      assert "" + (" " + xs[0]) == " " + xs[0];
      PiecesOfSuffix(" " + xs[0], xs[1..]);
    }
  }

  lemma TrimKeeps(x: string)
    requires Trimmed(x)
    ensures Trim(x) == x && Trim(" " + x) == x
  {
    assert (" " + x)[1..] == x;
    assert TrimLeft(" " + x) == TrimLeft(x) == x;
  }

  /** The general law: of clean strings, exactly the leading empty ones are lost. */
  lemma {:induction false} SplitJoin(xs: seq<string>)
    requires AllClean(xs)
    ensures Split(Join(xs)) == DropLeadingEmpty(xs)
    decreases |xs|
  {
    if xs != [] {
      assert Clean(xs[0]);
      assert "" + xs[0] == xs[0];
      if xs[0] == "" {
        SplitJoin(xs[1..]);
      } else {
        JoinAppends(xs[0], xs[1..]);
        PiecesSkip(xs[0], Suffix(xs[1..]), "");
        PiecesOfSuffix(xs[0], xs[1..]);
        TrimKeeps(xs[0]);
        forall i | 0 < i < |xs| ensures Trim(" " + xs[i]) == xs[i] {
          assert Clean(xs[i]);
          TrimKeeps(xs[i]);
        }
      }
    }
  }

  lemma {:induction false} DropLeadingEmptyFirst(xs: seq<string>)
    ensures DropLeadingEmpty(xs) == xs <==> xs == [] || xs[0] != ""
    ensures |DropLeadingEmpty(xs)| <= |xs|
  {
    if xs != [] {
      DropLeadingEmptyFirst(xs[1..]);
    }
  }

  lemma {:induction false} TrimLeftTrims(s: string)
    ensures var t := TrimLeft(s); (t != "" ==> !IsSpace(t[0])) && forall c :: c in t ==> c in s
    decreases |s|
  {
    if s != "" && IsSpace(s[0]) {
      TrimLeftTrims(s[1..]);
    }
  }

  lemma {:induction false} TrimRightTrims(s: string)
    ensures var t := TrimRight(s);
            && (t != "" ==> !IsSpace(t[|t| - 1]) && s != "" && t[0] == s[0])
            && forall c :: c in t ==> c in s
    decreases |s|
  {
    if s != "" && IsSpace(s[|s| - 1]) {
      TrimRightTrims(s[..|s| - 1]);
    }
  }

  lemma {:induction false} PiecesHaveNoComma(s: string, tmp: string)
    requires ',' !in tmp
    ensures forall i :: 0 <= i < |Pieces(s, tmp)| ==> ',' !in Pieces(s, tmp)[i]
    decreases |s|
  {
    if s != "" {
      if s[0] == ',' {
        PiecesHaveNoComma(s[1..], "");
      } else {
        PiecesHaveNoComma(s[1..], tmp + [s[0]]);
      }
    }
  }

  /** Whatever is split, the result is clean. */
  lemma SplitIsClean(s: string)
    ensures AllClean(Split(s))
  {
    var ps := Pieces(s, "");
    PiecesHaveNoComma(s, "");
    forall i | 0 <= i < |ps| ensures Clean(Trim(ps[i])) {
      TrimLeftTrims(ps[i]);
      TrimRightTrims(TrimLeft(ps[i]));
    }
  }

  /** The round trip holds exactly for lists of comma-free strings without outer white space that are empty or begin
      with a non-empty string; later empty strings survive. */
  lemma CsvRoundTrip(xs: seq<string>)
    ensures Split(Join(xs)) == xs <==> AllClean(xs) && (xs == [] || xs[0] != "")
  {
    SplitIsClean(Join(xs));
    if AllClean(xs) {
      SplitJoin(xs);
      DropLeadingEmptyFirst(xs);
    }
  }

  // ---- What splitting and joining mean for any input ----

  /** Each piece followed by a comma. */
  function Closed(ps: seq<string>): string {
    if ps == [] then "" else ps[0] + "," + Closed(ps[1..])
  }

  predicate AllSpace(x: string) {
    forall i :: 0 <= i < |x| ==> IsSpace(x[i])
  }

  /** y is x without its outer white space. */
  ghost predicate Stripped(x: string, y: string) {
    Trimmed(y) && exists a, b :: AllSpace(a) && AllSpace(b) && x == a + y + b
  }

  lemma {:induction false} PiecesClose(s: string, tmp: string)
    ensures Closed(Pieces(s, tmp)) ==
            tmp + s + (if tmp + s == "" || (s != "" && s[|s| - 1] == ',') then "" else ",")
    decreases |s|
  {
    if s == "" {
      assert Closed([tmp]) == tmp + "," + Closed([]);
    } else {
      assert s == [s[0]] + s[1..];
      if s[0] == ',' {
        PiecesClose(s[1..], "");
        assert Pieces(s, tmp)[1..] == Pieces(s[1..], "");
      } else {
        PiecesClose(s[1..], tmp + [s[0]]);
        assert tmp + [s[0]] + s[1..] == tmp + s;
      }
    }
  }

  lemma {:induction false} TrimLeftCuts(s: string) returns (a: string)
    ensures AllSpace(a) && s == a + TrimLeft(s)
    decreases |s|
  {
    a := "";
    if s != "" && IsSpace(s[0]) {
      var rest := TrimLeftCuts(s[1..]);
      a := [s[0]] + rest;
      assert s == [s[0]] + s[1..];
    }
  }

  lemma {:induction false} TrimRightCuts(s: string) returns (b: string)
    ensures AllSpace(b) && s == TrimRight(s) + b
    decreases |s|
  {
    b := "";
    if s != "" && IsSpace(s[|s| - 1]) {
      var rest := TrimRightCuts(s[..|s| - 1]);
      b := rest + [s[|s| - 1]];
      assert s == s[..|s| - 1] + [s[|s| - 1]];
    }
  }

  lemma TrimStrips(x: string)
    ensures Stripped(x, Trim(x))
  {
    TrimLeftTrims(x);
    TrimRightTrims(TrimLeft(x));
    var a := TrimLeftCuts(x);
    var b := TrimRightCuts(TrimLeft(x));
    assert x == a + Trim(x) + b;
  }

  /** Any string is split at its commas: put back together, a comma after each, the pieces are the string, but for a
      comma that it did not end in; and each result is its piece without outer white space. */
  lemma SplitMeans(s: string)
    ensures exists ps :: Closed(ps) == (if s == "" || s[|s| - 1] == ',' then s else s + ",") && |ps| == |Split(s)| &&
                         forall i :: 0 <= i < |ps| ==> ',' !in ps[i] && Stripped(ps[i], Split(s)[i])
  {
    hide Trim, Stripped;
    var ps := Pieces(s, "");
    PiecesClose(s, "");
    assert "" + s == s;
    PiecesHaveNoComma(s, "");
    forall i | 0 <= i < |ps| ensures Stripped(ps[i], Split(s)[i]) {
      TrimStrips(ps[i]);
    }
  }

  /** Any list is joined by a comma and a space before every element but the first that is not empty, those before it
      leaving no trace. */
  lemma {:induction false} JoinMeans(xs: seq<string>)
    ensures var ys := DropLeadingEmpty(xs); Join(xs) == if ys == [] then "" else ys[0] + Suffix(ys[1..])
    decreases |xs|
  {
    if xs != [] {
      assert "" + xs[0] == xs[0];
      if xs[0] == "" {
        JoinMeans(xs[1..]);
      } else {
        JoinAppends(xs[0], xs[1..]);
      }
    }
  }
}
