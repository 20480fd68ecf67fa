/** util::split, and the fact that makes its front and back meaningful: a split is unique. */
module Text {

  /** The parts with the separator between them. */
  function Join(parts: seq<string>, sep: char): string
    requires |parts| > 0
  {
    if |parts| == 1 then parts[0]
    else Join(parts[..|parts| - 1], sep) + [sep] + parts[|parts| - 1]
  }

  predicate IsSplit(parts: seq<string>, input: string, sep: char) {
    && |parts| > 0
    && (forall i :: 0 <= i < |parts| ==> sep !in parts[i])
    && Join(parts, sep) == input
  }

  function Count(s: string, c: char): nat {
    if s == "" then 0 else Count(s[..|s| - 1], c) + (if s[|s| - 1] == c then 1 else 0)
  }

  lemma {:induction false} CountConcat(s: string, t: string, c: char)
    ensures Count(s + t, c) == Count(s, c) + Count(t, c)
  {
    if t == "" {
      assert s + t == s;
    } else {
      CountConcat(s, t[..|t| - 1], c);
      assert (s + t)[..|s + t| - 1] == s + t[..|t| - 1];
    }
  }

  lemma {:induction false} CountAbsent(s: string, c: char)
    requires c !in s
    ensures Count(s, c) == 0
  {
    if s != "" {
      CountAbsent(s[..|s| - 1], c);
    }
  }

  /** There is one part more than there are separators. */
  lemma {:induction false} PartCount(parts: seq<string>, input: string, sep: char)
    requires IsSplit(parts, input, sep)
    ensures |parts| == Count(input, sep) + 1
  {
    var n := |parts| - 1;
    CountAbsent(parts[n], sep);
    if n > 0 {
      var front := Join(parts[..n], sep);
      PartCount(parts[..n], front, sep);
      CountConcat(front + [sep], parts[n], sep);
      CountConcat(front, [sep], sep);
      assert [sep][..0] == "";
    }
  }

  /** The last separator of a text, when there is one, is where the last part begins. */
  lemma LastSeparator(x: string, p: string, y: string, q: string, sep: char)
    requires x + [sep] + p == y + [sep] + q && sep !in p && sep !in q
    ensures x == y && p == q
  {
    var s := x + [sep] + p;
    assert s[|x|] == sep && s[|y|] == sep;
    assert forall j :: |x| < j < |s| ==> s[j] in p;
    assert forall j :: |y| < j < |s| ==> s[j] in q;
    assert |x| == |y|;
    assert x == s[..|x|] && p == s[|x| + 1..];
    assert y == s[..|y|] && q == s[|y| + 1..];
  }

  /** An input has exactly one split. */
  lemma {:induction false} SplitIsUnique(a: seq<string>, b: seq<string>, input: string, sep: char)
    requires IsSplit(a, input, sep) && IsSplit(b, input, sep)
    ensures a == b
    decreases |a|
  {
    PartCount(a, input, sep);
    PartCount(b, input, sep);
    var n := |a| - 1;
    if n > 0 {
      var x, y := Join(a[..n], sep), Join(b[..n], sep);
      LastSeparator(x, a[n], y, b[n], sep);
      SplitIsUnique(a[..n], b[..n], x, sep);
    }
    assert a == a[..n] + [a[n]] && b == b[..n] + [b[n]];
  }

  method Split(input: string, sep: char) returns (parts: seq<string>)
    ensures IsSplit(parts, input, sep)
  {
    parts := [];
    var output := "";
    for i := 0 to |input|
      invariant forall j :: 0 <= j < |parts| ==> sep !in parts[j]
      invariant sep !in output
      invariant Join(parts + [output], sep) == input[..i]
    {
      assert input[..i + 1] == input[..i] + [input[i]];
      assert (parts + [output])[..|parts|] == parts;
      if input[i] != sep {
        assert (parts + [output + [input[i]]])[..|parts|] == parts;
        output := output + [input[i]];
      } else {
        assert (parts + [output] + [""])[..|parts| + 1] == parts + [output];
        parts := parts + [output];
        output := "";
      }
    }
    assert input[..|input|] == input;
    parts := parts + [output];
  }
}
