/** Group segmentation: the integer digits, left-padded with zeros to a
    multiple of three and cut into three-digit groups, most significant first. */
module Segmentation {
  import opened DigitStrings

  /** A three-digit group. */
  predicate IsGroup(g: string) {
    |g| == 3 && AllDigits(g)
  }

  predicate AllGroups(gs: seq<string>) {
    forall i :: 0 <= i < |gs| ==> IsGroup(gs[i])
  }

  /** The groups written one after the other. */
  function Concat(gs: seq<string>): string
  {
    if |gs| == 0 then "" else gs[0] + Concat(gs[1..])
  }

  /** Two leading zeros when the length is one more than a multiple of three,
      one when it is two more, none otherwise. */
  function Pad(s: string): (p: string)
    ensures |p| % 3 == 0
    ensures |s| <= |p| < |s| + 3
    ensures p == Zeros(|p| - |s|) + s
  {
    if |s| % 3 == 1 then
      assert "00" == Zeros(2);
      "00" + s
    else if |s| % 3 == 2 then
      assert "0" == Zeros(1);
      "0" + s
    else
      assert Zeros(0) + s == s;
      s
  }

  /** Cuts a string whose length is a multiple of three into three-character pieces. */
  function Chunk(p: string): (gs: seq<string>)
    requires |p| % 3 == 0
    ensures |gs| == |p| / 3
    ensures forall i :: 0 <= i < |gs| ==> |gs[i]| == 3
    ensures Concat(gs) == p
    decreases |p|
  {
    if |p| == 0 then []
    else
      var rest := Chunk(p[3..]);
      assert ([p[..3]] + rest)[1..] == rest;
      assert p[..3] + p[3..] == p;
      [p[..3]] + rest
  }

  /** The groups of the integer digit string `s`. The empty string yields one
      empty piece, as splitting the empty string does. */
  function PrepareNumber(s: string): (gs: seq<string>)
    requires AllDigits(s)
    ensures s == "" ==> gs == [""]
    ensures s != "" ==> |gs| == (|s| + 2) / 3 && AllGroups(gs) && Concat(gs) == Pad(s)
  {
    if s == "" then [""]
    else
      var p := Pad(s);
      assert AllDigits(p);
      var gs := Chunk(p);
      ChunkDigits(p, gs);
      gs
  }

  lemma {:induction false} ChunkDigits(p: string, gs: seq<string>)
    requires |p| % 3 == 0 && AllDigits(p) && gs == Chunk(p)
    ensures AllGroups(gs)
    decreases |p|
  {
    if |p| > 0 {
      ChunkDigits(p[3..], Chunk(p[3..]));
      assert gs[0] == p[..3];
      assert gs[1..] == Chunk(p[3..]);
    }
  }

  function Pow1000(k: nat): (p: nat)
  {
    if k == 0 then 1 else 1000 * Pow1000(k - 1)
  }

  /** The number a list of groups denotes in base 1000: group `i` of `n`
      weighs 1000 to the power `n - 1 - i`, the position its scale suffix
      is looked up at. */
  function GroupsValue(gs: seq<string>): nat
    requires AllGroups(gs)
  {
    if |gs| == 0 then 0 else Value(gs[0]) * Pow1000(|gs| - 1) + GroupsValue(gs[1..])
  }

  lemma {:induction false} Pow10Thrice(k: nat)
    ensures Pow10(3 * k) == Pow1000(k)
  {
    if k > 0 {
      Pow10Thrice(k - 1);
      var m := 3 * (k - 1);
      assert 3 * k == m + 3;
      assert Pow10(m + 3) == 10 * Pow10(m + 2) == 100 * Pow10(m + 1) == 1000 * Pow10(m);
    }
  }

  /** Concatenated groups denote the base-1000 number of the groups. */
  lemma {:induction false} ConcatValue(gs: seq<string>)
    requires AllGroups(gs)
    ensures |Concat(gs)| == 3 * |gs| && AllDigits(Concat(gs))
    ensures Value(Concat(gs)) == GroupsValue(gs)
  {
    if |gs| > 0 {
      ConcatValue(gs[1..]);
      ValueAppend(gs[0], Concat(gs[1..]));
      Pow10Thrice(|gs| - 1);
    }
  }

  /** Segmentation keeps the number: the groups, read in base 1000, denote
      the value of the digit string. */
  lemma SegmentationKeepsValue(s: string)
    requires AllDigits(s) && s != ""
    ensures GroupsValue(PrepareNumber(s)) == Value(s)
  {
    var p := Pad(s);
    LeadingZerosValue(|p| - |s|, s);
    ConcatValue(PrepareNumber(s));
  }

  /** Segmenting the digits the groups spell out again gives the same groups. */
  lemma SegmentationIdempotent(s: string)
    requires AllDigits(s) && s != ""
    ensures AllDigits(Concat(PrepareNumber(s)))
    ensures PrepareNumber(Concat(PrepareNumber(s))) == PrepareNumber(s)
  {
  }
}
