/** String helpers that the JavaScript runtime provides to the source:
    `split`/`join` on one separator character, decimal rendering of
    numbers, ASCII lower-casing, prefixes and substrings. */
module Text {

  /** `s.split(sep)` in JavaScript: always at least one part, none containing `sep`. */
  function Split(s: string, sep: char): (parts: seq<string>)
    ensures |parts| >= 1
    ensures forall i :: 0 <= i < |parts| ==> sep !in parts[i]
  {
    if s == [] then [""]
    else
      var rest := Split(s[1..], sep);
      if s[0] == sep then [""] + rest
      else [[s[0]] + rest[0]] + rest[1..]
  }

  /** `parts.join(sep)` in JavaScript, for a non-empty list. */
  function Join(parts: seq<string>, sep: char): string
    requires |parts| >= 1
  {
    if |parts| == 1 then parts[0] else parts[0] + [sep] + Join(parts[1..], sep)
  }

  lemma JoinCons(first: string, rest: seq<string>, sep: char)
    requires |rest| >= 1
    ensures Join([first] + rest, sep) == first + [sep] + Join(rest, sep)
  {
    assert ([first] + rest)[1..] == rest;
  }

  /** A character other than the separator occurs in a join only if it occurs in a part. */
  lemma {:induction false} JoinAvoids(parts: seq<string>, sep: char, c: char)
    requires |parts| >= 1 && c != sep
    requires forall i :: 0 <= i < |parts| ==> c !in parts[i]
    ensures c !in Join(parts, sep)
  {
    if |parts| > 1 {
      JoinAvoids(parts[1..], sep, c);
      assert forall i :: 1 <= i < |parts| ==> parts[1..][i - 1] == parts[i];
    }
  }

  lemma {:induction false} SplitNoSeparator(s: string, sep: char)
    requires sep !in s
    ensures Split(s, sep) == [s]
  {
    if s != [] {
      SplitNoSeparator(s[1..], sep);
      assert [s[0]] + s[1..] == s;
    }
  }

  /** Splitting `a + [sep] + b` where `a` has no separator yields `a` followed by the parts of `b`. */
  lemma {:induction false} SplitAfterSegment(a: string, sep: char, b: string)
    requires sep !in a
    ensures Split(a + [sep] + b, sep) == [a] + Split(b, sep)
  {
    if a == [] {
      assert a + [sep] + b == [sep] + b;
      assert ([sep] + b)[1..] == b;
    } else {
      assert (a + [sep] + b)[1..] == a[1..] + [sep] + b;
      SplitAfterSegment(a[1..], sep, b);
      assert [a[0]] + a[1..] == a;
    }
  }

  /** Joining parts that do not contain the separator and splitting again gives the parts back. */
  lemma {:induction false} SplitJoin(parts: seq<string>, sep: char)
    requires |parts| >= 1
    requires forall i :: 0 <= i < |parts| ==> sep !in parts[i]
    ensures Split(Join(parts, sep), sep) == parts
  {
    if |parts| == 1 {
      SplitNoSeparator(parts[0], sep);
    } else {
      SplitJoin(parts[1..], sep);
      SplitAfterSegment(parts[0], sep, Join(parts[1..], sep));
      assert [parts[0]] + parts[1..] == parts;
    }
  }

  /** Splitting at a separator splits each side. */
  lemma {:induction false} SplitConcat(a: string, sep: char, b: string)
    ensures Split(a + [sep] + b, sep) == Split(a, sep) + Split(b, sep)
  {
    if a == [] {
      assert a + [sep] + b == [sep] + b;
      assert ([sep] + b)[1..] == b;
    } else {
      assert (a + [sep] + b)[1..] == a[1..] + [sep] + b;
      SplitConcat(a[1..], sep, b);
    }
  }

  /** An empty part of a join shows up as an empty part of its split. */
  lemma {:induction false} SplitJoinKeepsEmptyPart(parts: seq<string>, sep: char)
    requires |parts| >= 1 && "" in parts
    ensures "" in Split(Join(parts, sep), sep)
  {
    if |parts| > 1 {
      SplitConcat(parts[0], sep, Join(parts[1..], sep));
      if parts[0] != "" {
        assert "" in parts[1..];
        SplitJoinKeepsEmptyPart(parts[1..], sep);
      }
    }
  }

  /** Splitting and joining again gives the string back. */
  lemma {:induction false} JoinSplit(s: string, sep: char)
    ensures Join(Split(s, sep), sep) == s
  {
    if s != [] {
      JoinSplit(s[1..], sep);
      var rest := Split(s[1..], sep);
      if s[0] != sep {
        var parts := [[s[0]] + rest[0]] + rest[1..];
        if |rest| > 1 {
          assert parts[1..] == rest[1..];
          assert Join(rest, sep) == rest[0] + [sep] + Join(rest[1..], sep);
        }
      }
    }
  }

  predicate IsDigit(c: char) {
    '0' <= c <= '9'
  }

  predicate AllDigits(s: string) {
    forall i :: 0 <= i < |s| ==> IsDigit(s[i])
  }

  function DigitChar(d: nat): (c: char)
    requires d < 10
    ensures IsDigit(c) && c as int - '0' as int == d
  {
    (('0' as int) + d) as char
  }

  /** JavaScript's decimal rendering of a non-negative integer (`` `${n}` ``). */
  function NatToString(n: nat): (s: string)
    ensures |s| >= 1 && AllDigits(s)
  {
    if n < 10 then [DigitChar(n)] else NatToString(n / 10) + [DigitChar(n % 10)]
  }

  /** The value of a string of decimal digits. */
  function ParseNat(s: string): nat
    requires AllDigits(s)
  {
    if s == [] then 0 else ParseNat(s[..|s| - 1]) * 10 + (s[|s| - 1] as int - '0' as int)
  }

  lemma {:induction false} ParseNatToString(n: nat)
    ensures ParseNat(NatToString(n)) == n
  {
    if n >= 10 {
      ParseNatToString(n / 10);
      var s := NatToString(n);
      assert s[..|s| - 1] == NatToString(n / 10);
    }
  }

  /** Different numbers render differently. */
  lemma NatToStringInjective(m: nat, n: nat)
    ensures NatToString(m) == NatToString(n) ==> m == n
  {
    ParseNatToString(m);
    ParseNatToString(n);
  }

  lemma NatToStringDistinct()
    ensures forall m: nat, n: nat :: NatToString(m) == NatToString(n) ==> m == n
  {
    forall m: nat, n: nat ensures NatToString(m) == NatToString(n) ==> m == n {
      NatToStringInjective(m, n);
    }
  }

  /** `String.prototype.toLowerCase` on ASCII letters; every other character is kept. */
  function LowerChar(c: char): char {
    if 'A' <= c <= 'Z' then (c as int + 32) as char else c
  }

  function Lower(s: string): (r: string)
    ensures |r| == |s|
    ensures forall i :: 0 <= i < |s| ==> r[i] == LowerChar(s[i])
  {
    if s == [] then [] else [LowerChar(s[0])] + Lower(s[1..])
  }

  predicate StartsWith(s: string, prefix: string) {
    |prefix| <= |s| && s[..|prefix|] == prefix
  }

  predicate OccursAt(s: string, t: string, i: nat) {
    i + |t| <= |s| && s[i..i + |t|] == t
  }

  /** `s.includes(t)`, the unanchored search a regular expression without `^` performs. */
  predicate Contains(s: string, t: string) {
    exists i: nat :: i <= |s| && OccursAt(s, t, i)
  }

  predicate NoDuplicates(s: seq<string>) {
    forall i, j :: 0 <= i < j < |s| ==> s[i] != s[j]
  }

  /** Appending `xs` one by one to `init` and skipping what is already there: the insertion
      order of a JavaScript `Set` or of an object's keys. */
  function AppendNew(init: seq<string>, xs: seq<string>): (r: seq<string>)
    requires NoDuplicates(init)
    ensures NoDuplicates(r)
    ensures |init| <= |r| && r[..|init|] == init
    ensures forall x :: x in r <==> x in init || x in xs
  {
    if xs == [] then init
    else
      var before := AppendNew(init, xs[..|xs| - 1]);
      var x := xs[|xs| - 1];
      assert xs == xs[..|xs| - 1] + [x];
      if x in before then before else before + [x]
  }

  /** The appended elements come in the order of their first occurrence in `xs`: whatever
      comes later in the result first occurs later in `xs`. */
  lemma AppendNewKeepsFirstOccurrenceOrder(init: seq<string>, xs: seq<string>)
    requires NoDuplicates(init)
    ensures var r := AppendNew(init, xs);
      forall i, j :: |init| <= i < j < |r| ==> exists p :: 0 <= p < |xs| && xs[p] == r[i] && r[j] !in xs[..p + 1]
  {
    var r := AppendNew(init, xs);
    forall i, j | |init| <= i < j < |r|
      ensures exists p :: 0 <= p < |xs| && xs[p] == r[i] && r[j] !in xs[..p + 1]
    {
      AppendNewOrderAt(init, xs, i, j);
    }
  }

  lemma {:induction false} AppendNewOrderAt(init: seq<string>, xs: seq<string>, i: nat, j: nat)
    requires NoDuplicates(init) && |init| <= i < j < |AppendNew(init, xs)|
    ensures exists p :: 0 <= p < |xs| && xs[p] == AppendNew(init, xs)[i] && AppendNew(init, xs)[j] !in xs[..p + 1]
  {
    var n := |xs| - 1;
    var prefix := xs[..n];
    var before := AppendNew(init, prefix);
    var x := xs[n];
    var r := AppendNew(init, xs);
    assert xs == prefix + [x];
    assert r == if x in before then before else before + [x];
    if j < |before| {
      AppendNewOrderAt(init, prefix, i, j);
      var p :| 0 <= p < n && prefix[p] == before[i] && before[j] !in prefix[..p + 1];
      assert prefix[..p + 1] == xs[..p + 1];
    } else {
      assert r[j] == x && x !in before;
      assert before[i] !in init by {
        forall k | 0 <= k < |init| ensures init[k] != before[i] {
          assert init[k] == before[k];
        }
      }
      var p :| 0 <= p < n && prefix[p] == before[i];
      assert x !in prefix;
      assert xs[..p + 1] == prefix[..p + 1];
    }
  }
}
