/**
 * Python's `sep.join(parts)` on lists of strings, and `s.split(c)` for a
 * one-character separator as its inverse.
 */
module Strings {
  /** `sep.join(parts)`: the parts with sep between neighbours, nothing before or after. */
  function Join(sep: string, parts: seq<string>): string
  {
    if |parts| == 0 then ""
    else if |parts| == 1 then parts[0]
    else parts[0] + sep + Join(sep, parts[1..])
  }

  /** `s.split(c)`: the maximal c-free pieces of s, in order; there is one more piece than there are c's. */
  function Split(s: string, c: char): (r: seq<string>)
    ensures |r| == multiset(s)[c] + 1
    ensures forall i :: 0 <= i < |r| ==> c !in r[i]
  {
    if s == [] then [""]
    else
      var rest := Split(s[1..], c);
      assert s == [s[0]] + s[1..];
      if s[0] == c then [""] + rest else [[s[0]] + rest[0]] + rest[1..]
  }

  /** Joining a first part in front of the rest. */
  lemma JoinCons(sep: string, x: string, parts: seq<string>)
    ensures Join(sep, [x] + parts) == x + (if parts == [] then "" else sep + Join(sep, parts))
  {
    assert ([x] + parts)[1..] == parts;
  }

  /** Joining one more part appends the separator and that part. */
  lemma {:induction false} JoinAppend(sep: string, parts: seq<string>, x: string)
    requires |parts| > 0
    ensures Join(sep, parts + [x]) == Join(sep, parts) + sep + x
  {
    if |parts| > 1 {
      assert (parts + [x])[1..] == parts[1..] + [x];
      JoinAppend(sep, parts[1..], x);
    }
  }

  /** A join of at least one part ends with the last part. */
  lemma JoinEndsWithLast(sep: string, parts: seq<string>)
    requires |parts| > 0
    ensures var j := Join(sep, parts); var last := parts[|parts| - 1];
      |last| <= |j| && j[|j| - |last|..] == last
  {
    if |parts| > 1 {
      var init := parts[..|parts| - 1];
      assert parts == init + [parts[|parts| - 1]];
      JoinAppend(sep, init, parts[|parts| - 1]);
    }
  }

  /** Splitting a c-free prefix followed by more text glues the prefix to the first piece. */
  lemma {:induction false} SplitFreePrefix(p: string, rest: string, c: char)
    requires c !in p
    ensures var r := Split(rest, c); Split(p + rest, c) == [p + r[0]] + r[1..]
  {
    if p != [] {
      assert (p + rest)[0] == p[0];
      assert (p + rest)[1..] == p[1..] + rest;
      assert p[0] in p;
      SplitFreePrefix(p[1..], rest, c);
      var r := Split(rest, c);
      assert Split(p + rest, c) == [[p[0]] + (p[1..] + r[0])] + r[1..];
      assert [p[0]] + (p[1..] + Split(rest, c)[0]) == p + Split(rest, c)[0];
    } else {
      var r := Split(rest, c);
      assert p + rest == rest && p + r[0] == r[0];
      assert r == [r[0]] + r[1..];
    }
  }

  /** Splitting a join of c-free parts on c gives the parts back. */
  lemma {:induction false} SplitJoin(parts: seq<string>, c: char)
    requires |parts| > 0
    requires forall i :: 0 <= i < |parts| ==> c !in parts[i]
    ensures Split(Join([c], parts), c) == parts
  {
    if |parts| == 1 {
      SplitFreePrefix(parts[0], "", c);
      assert parts[0] + "" == parts[0];
    } else {
      var tail := Join([c], parts[1..]);
      assert Join([c], parts) == parts[0] + ([c] + tail);
      SplitFreePrefix(parts[0], [c] + tail, c);
      assert ([c] + tail)[1..] == tail;
      SplitJoin(parts[1..], c);
      assert Split([c] + tail, c) == [""] + parts[1..];
      assert parts[0] + "" == parts[0];
      assert parts == [parts[0]] + parts[1..];
    }
  }

  /** How Split unfolds on a non-empty string. */
  lemma SplitUnfold(s: string, c: char)
    requires s != []
    ensures var rest := Split(s[1..], c);
      Split(s, c) == if s[0] == c then [""] + rest else [[s[0]] + rest[0]] + rest[1..]
  {
  }

  /** A prefix glued to the first part comes out in front of the join. */
  lemma JoinGlue(sep: string, p: string, x: string, parts: seq<string>)
    ensures Join(sep, [p + x] + parts) == p + Join(sep, [x] + parts)
  {
    JoinCons(sep, p + x, parts);
    JoinCons(sep, x, parts);
  }

  /** Joining the pieces of a split with the separator gives the string back. */
  lemma {:induction false} JoinSplit(s: string, c: char)
    ensures Join([c], Split(s, c)) == s
  {
    if s != [] {
      var rest := Split(s[1..], c);
      JoinSplit(s[1..], c);
      SplitUnfold(s, c);
      assert s == [s[0]] + s[1..];
      if s[0] == c {
        JoinCons([c], "", rest);
      } else {
        JoinGlue([c], [s[0]], rest[0], rest[1..]);
        assert rest == [rest[0]] + rest[1..];
      }
    }
  }
}
