/** The few JavaScript string and array operations the command line relies on,
    each with the facts the rest of the model uses about it. */
module Strings {

  /** `parts.join("")`: the parts concatenated in order. */
  function Join(parts: seq<string>): string
  {
    if parts == [] then "" else Join(parts[..|parts| - 1]) + parts[|parts| - 1]
  }

  /** `s.split("")`: one single-character string per character of `s`. */
  function Chars(s: string): (parts: seq<string>)
  {
    seq(|s|, i requires 0 <= i < |s| => [s[i]])
  }

  /** `s.replace(c, "")` with a one-character pattern: drops the first occurrence of `c`, if any. */
  function RemoveFirst(s: string, c: char): (r: string)
    ensures c !in s ==> r == s
    ensures c in s ==> |r| == |s| - 1
    ensures |r| <= |s|
    ensures forall x :: x in r ==> x in s
  {
    if s == [] then s
    else if s[0] == c then s[1..]
    else [s[0]] + RemoveFirst(s[1..], c)
  }

  /** `s.split(sep)` with a one-character separator: the pieces between the
      separators, empty pieces included; never an empty list. */
  function Split(s: string, sep: char): (parts: seq<string>)
    ensures |parts| >= 1
    ensures sep !in parts[0] && parts[0] <= s
    ensures sep !in s ==> parts == [s]
    ensures sep in s ==> |parts| >= 2
  {
    if s == [] then [""]
    else if s[0] == sep then [""] + Split(s[1..], sep)
    else
      var rest := Split(s[1..], sep);
      assert sep !in s ==> sep !in s[1..] && [s[0]] + s[1..] == s;
      [[s[0]] + rest[0]] + rest[1..]
  }

  lemma {:induction false} JoinCons(x: string, rest: seq<string>)
    ensures Join([x] + rest) == x + Join(rest)
  {
    if rest != [] {
      var init := rest[..|rest| - 1];
      assert ([x] + rest)[..|rest|] == [x] + init;
      JoinCons(x, init);
    } else {
      assert Join([x]) == Join([]) + x;
    }
  }

  lemma {:induction false} JoinChars(s: string)
    ensures Join(Chars(s)) == s
  {
    if s != [] {
      var init := s[..|s| - 1];
      assert Chars(s)[..|s| - 1] == Chars(init);
      JoinChars(init);
      assert s == init + [s[|s| - 1]];
    }
  }

  /** Splitting at the first separator: the piece before it comes first. */
  lemma {:induction false} SplitAtFirst(a: string, sep: char, b: string)
    requires sep !in a
    ensures Split(a + [sep] + b, sep) == [a] + Split(b, sep)
  {
    if a == [] {
      assert a + [sep] + b == [sep] + b;
      assert ([sep] + b)[1..] == b;
    } else {
      assert (a + [sep] + b)[1..] == a[1..] + [sep] + b;
      SplitAtFirst(a[1..], sep, b);
      assert [a[0]] + a[1..] == a;
    }
  }

  /** Removing a character that stands at the front is dropping the front. */
  lemma RemoveFirstAtFront(c: char, s: string)
    ensures RemoveFirst([c] + s, c) == s
  {
    assert ([c] + s)[1..] == s;
  }

  /** Removing a character that occurs only in the appended suffix leaves the prefix alone. */
  lemma {:induction false} RemoveFirstSkips(s: string, c: char, t: string)
    requires c !in s
    ensures RemoveFirst(s + t, c) == s + RemoveFirst(t, c)
  {
    if s != [] {
      assert (s + t)[1..] == s[1..] + t;
      RemoveFirstSkips(s[1..], c, t);
      assert [s[0]] + (s[1..] + RemoveFirst(t, c)) == s + RemoveFirst(t, c);
    } else {
      assert s + t == t;
    }
  }

  /** `s.replace(c, "")` drops exactly the first occurrence of `c`: the
      occurrence at `i`, when none stands before it. */
  lemma RemoveFirstMeans(s: string, c: char, i: nat)
    requires i < |s| && s[i] == c && c !in s[..i]
    ensures RemoveFirst(s, c) == s[..i] + s[i + 1..]
  {
    assert s == s[..i] + ([c] + s[i + 1..]);
    RemoveFirstSkips(s[..i], c, [c] + s[i + 1..]);
    RemoveFirstAtFront(c, s[i + 1..]);
  }
}
