/**
  Counting CJK Unified Ideographs in a file's content. The content is the
  sequence of its Unicode code points, in order.
 */
module CjkCounter {

  /** First and last code point that is counted (inclusive). */
  const CjkFirst: int := 0x4E00
  const CjkLast: int := 0x9FA5

  /** A code point is counted when it lies in the inclusive range. The
      truthiness test of `countChineseCharacters` on the code point only
      excludes 0, which the range excludes already. */
  predicate IsCjk(c: int)
  {
    CjkFirst <= c <= CjkLast
  }

  /** The number of counted code points in `content`. */
  function CjkCount(content: seq<int>): (n: nat)
    ensures n <= |content|
    ensures n == 0 <==> forall i :: 0 <= i < |content| ==> !IsCjk(content[i])
    decreases |content|
  {
    if |content| == 0 then 0
    else
      var last := |content| - 1;
      assert forall i :: 0 <= i < last ==> content[..last][i] == content[i];
      CjkCount(content[..last]) + (if IsCjk(content[last]) then 1 else 0)
  }

  /** The positions of the counted code points: an independent description of
      what `CjkCount` counts. */
  ghost function CjkPositions(content: seq<int>): set<nat>
  {
    set i: nat | i < |content| && IsCjk(content[i])
  }

  lemma {:induction false} CountMatchesPositions(content: seq<int>)
    ensures CjkCount(content) == |CjkPositions(content)|
    decreases |content|
  {
    if |content| > 0 {
      var last := |content| - 1;
      var prefix := content[..last];
      CountMatchesPositions(prefix);
      assert CjkPositions(prefix) == set i: nat | i < last && IsCjk(content[i]);
      if IsCjk(content[last]) {
        assert CjkPositions(content) == CjkPositions(prefix) + {last};
      } else {
        assert CjkPositions(content) == CjkPositions(prefix);
      }
    }
  }

  /** Counting distributes over concatenation: text appended to a file adds
      exactly its own count. */
  lemma {:induction false} CountAppend(a: seq<int>, b: seq<int>)
    ensures CjkCount(a + b) == CjkCount(a) + CjkCount(b)
    decreases |b|
  {
    if |b| > 0 {
      var last := |b| - 1;
      assert (a + b)[..|a + b| - 1] == a + b[..last];
      CountAppend(a, b[..last]);
    } else {
      assert a + b == a;
    }
  }

  /** Every code point is counted exactly when the count is the length. */
  lemma {:induction false} CountIsLengthIffAllCjk(content: seq<int>)
    ensures CjkCount(content) == |content| <==> forall i :: 0 <= i < |content| ==> IsCjk(content[i])
    decreases |content|
  {
    if |content| > 0 {
      var last := |content| - 1;
      var prefix := content[..last];
      CountIsLengthIffAllCjk(prefix);
      assert forall i :: 0 <= i < last ==> prefix[i] == content[i];
    }
  }

  /** The loop of `countChineseCharacters`: walk the code points once and count those in range. */
  method CountChineseCharacters(content: seq<int>) returns (count: nat)
    ensures count == CjkCount(content)
    ensures count == |CjkPositions(content)|
  {
    count := 0;
    var i := 0;
    while i < |content|
      invariant 0 <= i <= |content|
      invariant count == CjkCount(content[..i])
    {
      assert content[..i + 1][..i] == content[..i];
      if IsCjk(content[i]) {
        count := count + 1;
      }
      i := i + 1;
    }
    assert content[..i] == content;
    CountMatchesPositions(content);
  }

  /** The code points of a Dafny string, whose characters are Unicode scalar values. */
  function Codepoints(s: string): seq<int>
  {
    seq(|s|, i requires 0 <= i < |s| => s[i] as int)
  }

  /** One ASCII letter, two ideographs and another ASCII letter count as two. */
  lemma MixedTextCountsTwo()
    ensures CjkCount(Codepoints("a你好b")) == 2
  {
    var cps := Codepoints("a你好b");
    assert cps == [0x61, 0x4F60, 0x597D, 0x62];
    assert cps[..3] == [0x61, 0x4F60, 0x597D];
    assert cps[..3][..2] == [0x61, 0x4F60];
    assert cps[..3][..2][..1] == [0x61];
  }
}
