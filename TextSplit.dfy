/** `String.Split(char separator, int count)` with the default options: at most
    `count` parts, the last of which keeps every further separator. */
module TextSplit {

  function Min(a: int, b: int): int {
    if a <= b then a else b
  }

  /** The position of the first `c` in `s`. */
  function IndexOf(s: string, c: char): (i: nat)
    requires c in s
    ensures i < |s| && s[i] == c && c !in s[..i]
  {
    if s[0] == c then 0 else 1 + IndexOf(s[1..], c)
  }

  /** The parts glued back together with the separator between them. */
  function Join(parts: seq<string>, sep: char): string
    requires |parts| >= 1
  {
    if |parts| == 1 then parts[0] else parts[0] + [sep] + Join(parts[1..], sep)
  }

  /** `s.Split(sep, count)`: no parts for count 0; otherwise the text up to each
      of the first count - 1 separators, then the rest of `s`. */
  function Split(s: string, sep: char, count: nat): (parts: seq<string>)
    ensures |parts| <= count
    ensures forall i :: 0 <= i < |parts| - 1 ==> sep !in parts[i]
    decreases count
  {
    if count == 0 then []
    else if count == 1 || sep !in s then [s]
    else
      var i := IndexOf(s, sep);
      [s[..i]] + Split(s[i + 1..], sep, count - 1)
  }

  /** Cutting at the first separator removes exactly one separator. */
  lemma {:induction false} CutAtFirst(s: string, sep: char)
    requires sep in s
    ensures var i := IndexOf(s, sep);
            s == s[..i] + [sep] + s[i + 1..] && multiset(s)[sep] == multiset(s[i + 1..])[sep] + 1
  {
    var i := IndexOf(s, sep);
    assert s == s[..i] + [sep] + s[i + 1..];
    assert multiset(s) == multiset(s[..i]) + multiset{sep} + multiset(s[i + 1..]);
  }

  /** With a positive limit there are as many parts as separators plus one,
      but never more than the limit. */
  lemma {:induction false} SplitCount(s: string, sep: char, count: nat)
    requires count >= 1
    ensures |Split(s, sep, count)| == Min(count, multiset(s)[sep] + 1)
    decreases count
  {
    if count > 1 && sep in s {
      CutAtFirst(s, sep);
      SplitCount(s[IndexOf(s, sep) + 1..], sep, count - 1);
    }
  }

  /** Joining the parts with the separator gives back the text. */
  lemma {:induction false} SplitJoin(s: string, sep: char, count: nat)
    requires count >= 1
    ensures |Split(s, sep, count)| >= 1 && Join(Split(s, sep, count), sep) == s
    decreases count
  {
    if count > 1 && sep in s {
      var i := IndexOf(s, sep);
      CutAtFirst(s, sep);
      SplitJoin(s[i + 1..], sep, count - 1);
      var parts := Split(s, sep, count);
      assert parts[1..] == Split(s[i + 1..], sep, count - 1);
    }
  }

  /** A text with two separators before which no other separator occurs splits,
      with count 3, into exactly the three fields around them. */
  lemma {:induction false} SplitThree(a: string, b: string, d: string, sep: char)
    requires sep !in a && sep !in b
    ensures Split(a + [sep] + b + [sep] + d, sep, 3) == [a, b, d]
  {
    var rest := b + [sep] + d;
    var s := a + [sep] + b + [sep] + d;
    assert s == a + [sep] + rest;
    SplitAround(s, a, rest, sep, 3);
    SplitAround(rest, b, d, sep, 2);
  }

  lemma {:induction false} SplitAround(s: string, a: string, rest: string, sep: char, count: nat)
    requires s == a + [sep] + rest
    requires sep !in a && count >= 2
    ensures Split(s, sep, count) == [a] + Split(rest, sep, count - 1)
    ensures count == 2 ==> Split(s, sep, count) == [a, rest]
  {
    FirstSeparator(a, rest, sep);
    assert s[|a|] == sep;
    assert s[..|a|] == a && s[|a| + 1..] == rest;
    SplitAtFirst(s, sep, count);
  }

  lemma {:induction false} SplitAtFirst(s: string, sep: char, count: nat)
    requires count >= 2 && sep in s
    ensures Split(s, sep, count) == [s[..IndexOf(s, sep)]] + Split(s[IndexOf(s, sep) + 1..], sep, count - 1)
  {
  }

  lemma {:induction false} FirstSeparator(a: string, rest: string, sep: char)
    requires sep !in a
    ensures IndexOf(a + [sep] + rest, sep) == |a|
  {
    var s := a + [sep] + rest;
    var i := IndexOf(s, sep);
    assert s[|a|] == sep;
    assert s[..|a|] == a;
  }
}
