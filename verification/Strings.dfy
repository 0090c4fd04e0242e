/** Splitting strings at a separator. */
module Strings {

  /** The index of the first `separator`, or the length if there is none. */
  function IndexOf(s: string, separator: char): (n: nat)
    ensures n <= |s|
    ensures n < |s| <==> separator in s
    ensures n < |s| ==> s[n] == separator
    ensures separator !in s[..n]
  {
    if s == "" || s[0] == separator then 0
    else
      var n := 1 + IndexOf(s[1..], separator);
      assert s[..n] == [s[0]] + s[1..][..n - 1];
      n
  }

  /** The part before the first separator is found again. */
  lemma {:induction false} FirstSeparator(prefix: string, separator: char, rest: string)
    requires separator !in prefix
    ensures IndexOf(prefix + [separator] + rest, separator) == |prefix|
  {
    if prefix != "" {
      FirstSeparator(prefix[1..], separator, rest);
      assert (prefix + [separator] + rest)[1..] == prefix[1..] + [separator] + rest;
    }
  }

  /** `s.split(separator)`: the parts between the separators, one more than there
      are separators. */
  function Split(s: string, separator: char): (parts: seq<string>)
    ensures parts != []
  {
    if s == "" then [""] else PutFirst(s[0], separator, Split(s[1..], separator))
  }

  /** The parts with one more character in front. */
  function PutFirst(c: char, separator: char, parts: seq<string>): (r: seq<string>)
    requires parts != []
    ensures r != []
  {
    if c == separator then [""] + parts else [[c] + parts[0]] + parts[1..]
  }

  lemma PutFirstBefore(c: char, separator: char, parts: seq<string>, more: seq<string>)
    requires parts != []
    ensures PutFirst(c, separator, parts + more) == PutFirst(c, separator, parts) + more
  {
  }

  /** Splitting around one separator splits both sides. */
  lemma {:induction false} SplitAround(front: string, separator: char, back: string)
    ensures Split(front + [separator] + back, separator) == Split(front, separator) + Split(back, separator)
  {
    var whole := front + [separator] + back;
    if front == "" {
      assert whole[0] == separator && whole[1..] == back;
    } else {
      SplitAround(front[1..], separator, back);
      assert whole[0] == front[0] && whole[1..] == front[1..] + [separator] + back;
      PutFirstBefore(front[0], separator, Split(front[1..], separator), Split(back, separator));
    }
  }

  lemma {:induction false} SplitOfPlain(s: string, separator: char)
    requires separator !in s
    ensures Split(s, separator) == [s]
  {
    if s != "" {
      SplitOfPlain(s[1..], separator);
      assert [s[0]] + s[1..] == s;
    }
  }

  predicate EndsWith(s: string, suffix: string) {
    |s| >= |suffix| && s[|s| - |suffix|..] == suffix
  }
}
