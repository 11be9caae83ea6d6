/** Splitting, cutting and ordering of byte strings, as Go's strings and sort packages define them. */
module Text {

  datatype Option<+T> = None | Some(value: T) {
    function GetOr(default: T): T {
      if Some? then value else default
    }
  }

  /** strings.Split with a one-element separator: always at least one piece. */
  function Split<T(==)>(s: seq<T>, sep: T): (pieces: seq<seq<T>>)
    ensures |pieces| >= 1
    ensures forall i :: 0 <= i < |pieces| ==> sep !in pieces[i]
  {
    if s == [] then [[]] else Prepend(s[0], sep, Split(s[1..], sep))
  }

  /** The pieces of [c] + s, given the pieces of s. */
  function Prepend<T(==)>(c: T, sep: T, pieces: seq<seq<T>>): (r: seq<seq<T>>)
    requires |pieces| >= 1
    requires forall i :: 0 <= i < |pieces| ==> sep !in pieces[i]
    ensures |r| >= 1
    ensures forall i :: 0 <= i < |r| ==> sep !in r[i]
  {
    if c == sep then [[]] + pieces else [[c] + pieces[0]] + pieces[1..]
  }

  /** strings.Cut with a one-element separator: the text around its first occurrence. */
  function Cut<T(==)>(s: seq<T>, sep: T): (r: Option<(seq<T>, seq<T>)>)
    ensures r.Some? <==> sep in s
    ensures r.Some? ==> s == r.value.0 + [sep] + r.value.1 && sep !in r.value.0
  {
    if s == [] then None
    else if s[0] == sep then Some(([], s[1..]))
    else
      match Cut(s[1..], sep)
      case None => None
      case Some((a, b)) => Some(([s[0]] + a, b))
  }

  lemma {:induction false} CutAtFirst<T>(a: seq<T>, sep: T, b: seq<T>)
    requires sep !in a
    ensures Cut(a + [sep] + b, sep) == Some((a, b))
  {
    if a == [] {
      assert (a + [sep] + b)[1..] == b;
    } else {
      CutAtFirst(a[1..], sep, b);
      assert (a + [sep] + b)[1..] == a[1..] + [sep] + b;
      assert [a[0]] + a[1..] == a;
    }
  }

  lemma {:induction false} SplitJoined<T>(a: seq<T>, sep: T, b: seq<T>)
    ensures Split(a + [sep] + b, sep) == Split(a, sep) + Split(b, sep)
  {
    var s := a + [sep] + b;
    if a == [] {
      assert s[1..] == b;
    } else {
      assert s[1..] == a[1..] + [sep] + b;
      SplitJoined(a[1..], sep, b);
      PrependAppend(a[0], sep, Split(a[1..], sep), Split(b, sep));
    }
  }

  lemma PrependAppend<T>(c: T, sep: T, x: seq<seq<T>>, y: seq<seq<T>>)
    requires |x| >= 1
    requires forall i :: 0 <= i < |x| ==> sep !in x[i]
    requires forall i :: 0 <= i < |y| ==> sep !in y[i]
    ensures Prepend(c, sep, x + y) == Prepend(c, sep, x) + y
  {
    assert (x + y)[0] == x[0] && (x + y)[1..] == x[1..] + y;
  }

  lemma {:induction false} SplitWhole<T>(a: seq<T>, sep: T)
    requires sep !in a
    ensures Split(a, sep) == [a]
  {
    if a != [] {
      SplitWhole(a[1..], sep);
      assert [a[0]] + a[1..] == a;
    }
  }

  /** The lines, each ended by a newline. */
  function Unlines(lines: seq<string>): string {
    if lines == [] then "" else lines[0] + "\n" + Unlines(lines[1..])
  }

  lemma {:induction false} SplitUnlines(lines: seq<string>, tail: string)
    requires '\n' !in tail && forall i :: 0 <= i < |lines| ==> '\n' !in lines[i]
    ensures Split(Unlines(lines) + tail, '\n') == lines + [tail]
  {
    if lines == [] {
      SplitWhole(tail, '\n');
      assert Unlines(lines) + tail == tail;
    } else {
      SplitUnlines(lines[1..], tail);
      SplitFirst(lines[0], '\n', Unlines(lines[1..]), tail);
      assert [lines[0]] + (lines[1..] + [tail]) == lines + [tail];
    }
  }

  lemma SplitFirst<T>(line: seq<T>, sep: T, more: seq<T>, tail: seq<T>)
    requires sep !in line
    ensures Split(line + [sep] + more + tail, sep) == [line] + Split(more + tail, sep)
  {
    SplitJoined(line, sep, more + tail);
    SplitWhole(line, sep);
    assert line + [sep] + more + tail == line + [sep] + (more + tail);
  }

  lemma {:induction false} UnlinesAppend(a: seq<string>, b: seq<string>)
    ensures Unlines(a + b) == Unlines(a) + Unlines(b)
  {
    if a == [] {
      assert a + b == b;
    } else {
      UnlinesAppend(a[1..], b);
      assert (a + b)[1..] == a[1..] + b;
    }
  }

  predicate HasSuffix(s: string, suffix: string) {
    |suffix| <= |s| && s[|s| - |suffix|..] == suffix
  }

  /** strings.HasSuffix and strings.TrimSuffix: what is left in front of a suffix. */
  lemma HasSuffixIff(s: string, suffix: string)
    ensures HasSuffix(s, suffix) <==> exists before: string :: before + suffix == s
    ensures HasSuffix(s, suffix) ==> s[..|s| - |suffix|] + suffix == s
  {
    if HasSuffix(s, suffix) {
      assert s[..|s| - |suffix|] + suffix == s;
    }
    if before: string :| before + suffix == s {
      assert s[|s| - |suffix|..] == suffix;
    }
  }

  function LowerChar(c: char): char {
    if 'A' <= c <= 'Z' then (c as int + 32) as char else c
  }

  /** strings.ToLower on ASCII text. */
  function ToLower(s: string): (r: string)
    ensures |r| == |s|
    ensures forall i :: 0 <= i < |s| ==> r[i] == LowerChar(s[i])
  {
    seq(|s|, i requires 0 <= i < |s| => LowerChar(s[i]))
  }

  /** The same character, or the two cases of one ASCII letter. */
  predicate SameLetter(a: char, b: char) {
    var x, y := a as int, b as int;
    x == y || (65 <= x <= 90 && y == x + 32) || (65 <= y <= 90 && x == y + 32)
  }

  /** Two names are one name to the resolver if they differ in the case of ASCII letters at most. */
  lemma SameWhenLowered(a: string, b: string)
    ensures ToLower(a) == ToLower(b) <==> |a| == |b| && forall i :: 0 <= i < |a| ==> SameLetter(a[i], b[i])
  {
    forall c: char, d: char ensures LowerChar(c) == LowerChar(d) <==> SameLetter(c, d) {
      LoweredIff(c, d);
    }
    if |a| == |b| && forall i :: 0 <= i < |a| ==> SameLetter(a[i], b[i]) {
      assert forall i :: 0 <= i < |a| ==> ToLower(a)[i] == ToLower(b)[i];
    }
    if ToLower(a) == ToLower(b) {
      forall i | 0 <= i < |a| ensures SameLetter(a[i], b[i]) {
        assert ToLower(a)[i] == LowerChar(a[i]) && ToLower(b)[i] == LowerChar(b[i]);
      }
    }
  }

  lemma LoweredIff(c: char, d: char)
    ensures LowerChar(c) == LowerChar(d) <==> SameLetter(c, d)
  {
  }

  /** Go's string order: the first differing byte decides, a proper prefix comes first. */
  predicate Less(a: string, b: string) {
    b != [] && (a == [] || a[0] < b[0] || (a[0] == b[0] && Less(a[1..], b[1..])))
  }

  /** a and b agree up to i, where a ends first or has the smaller character. */
  predicate DropsBelow(a: string, b: string, i: nat) {
    i <= |a| && i < |b| && a[..i] == b[..i] && (i == |a| || (a[i] as int) < b[i] as int)
  }

  lemma {:induction false} LessIff(a: string, b: string)
    ensures Less(a, b) <==> exists i: nat :: DropsBelow(a, b, i)
  {
    if a != [] && b != [] {
      LessIff(a[1..], b[1..]);
    }
    if Less(a, b) {
      if a == [] || a[0] < b[0] {
        assert DropsBelow(a, b, 0);
      } else {
        var i: nat :| DropsBelow(a[1..], b[1..], i);
        assert a[..i + 1] == [a[0]] + a[1..][..i] && b[..i + 1] == [b[0]] + b[1..][..i];
        assert DropsBelow(a, b, i + 1);
      }
    }
    if i: nat :| DropsBelow(a, b, i) {
      if i > 0 {
        assert a[..i][0] == a[0] && b[..i][0] == b[0];
        assert a[1..][..i - 1] == a[..i][1..] && b[1..][..i - 1] == b[..i][1..];
        assert DropsBelow(a[1..], b[1..], i - 1);
      }
    }
  }

  lemma {:induction false} LessTotal(a: string, b: string)
    ensures Less(a, b) || a == b || Less(b, a)
    ensures !(Less(a, b) && Less(b, a)) && !Less(a, a)
  {
    if a != [] && b != [] {
      LessTotal(a[1..], b[1..]);
      if a[1..] == b[1..] && a[0] == b[0] {
        assert a == [a[0]] + a[1..] && b == [b[0]] + b[1..];
      }
    }
    if a != [] {
      LessTotal(a[1..], a[1..]);
    }
  }

  lemma {:induction false} LessTransitive(a: string, b: string, c: string)
    requires Less(a, b) && Less(b, c)
    ensures Less(a, c)
  {
    if a != [] && a[0] == b[0] && b[0] == c[0] {
      LessTransitive(a[1..], b[1..], c[1..]);
    }
  }

  ghost predicate StrictlySorted(s: seq<string>) {
    forall i, j :: 0 <= i < j < |s| ==> Less(s[i], s[j])
  }

  function Elements<T>(s: seq<T>): set<T> {
    set x | x in s
  }

  lemma ElementsAppend<T>(s: seq<T>, x: T)
    ensures Elements(s + [x]) == Elements(s) + {x}
  {
    forall y ensures y in Elements(s + [x]) <==> y in Elements(s) + {x} {
      assert y in s ==> (s + [x])[|s|] == x && y in s + [x];
    }
  }

  /** A strictly sorted sequence is determined by its elements. */
  lemma {:induction false} SortedUnique(a: seq<string>, b: seq<string>)
    requires StrictlySorted(a) && StrictlySorted(b) && Elements(a) == Elements(b)
    ensures a == b
  {
    if a != [] {
      assert a[0] in Elements(b);
    }
    if b != [] {
      assert b[0] in Elements(a);
    }
    if a != [] && b != [] {
      var i :| 0 <= i < |b| && b[i] == a[0];
      var j :| 0 <= j < |a| && a[j] == b[0];
      LessTotal(a[0], b[0]);
      forall x ensures x in Elements(a[1..]) <==> x in Elements(b[1..]) {
        LessTotal(a[0], a[0]);
        assert x in a[1..] ==> x in Elements(a) && x != a[0];
        assert x in b[1..] ==> x in Elements(b) && x != b[0];
      }
      assert Elements(a[1..]) == Elements(b[1..]);
      SortedUnique(a[1..], b[1..]);
      assert a == [a[0]] + a[1..] && b == [b[0]] + b[1..];
    }
  }

  /** sort.Strings of a duplicate-free slice, as in-order insertion; its result is the only one possible. */
  method SortStrings(names: seq<string>) returns (sorted: seq<string>)
    requires forall i, j :: 0 <= i < j < |names| ==> names[i] != names[j]
    ensures StrictlySorted(sorted) && Elements(sorted) == Elements(names)
    ensures forall other: seq<string> :: StrictlySorted(other) && Elements(other) == Elements(names) ==> other == sorted
  {
    sorted := [];
    for n := 0 to |names|
      invariant StrictlySorted(sorted) && Elements(sorted) == Elements(names[..n])
    {
      var x := names[n];
      assert x !in Elements(names[..n]);
      var k := 0;
      while k < |sorted| && Less(sorted[k], x)
        invariant 0 <= k <= |sorted|
        invariant forall i :: 0 <= i < k ==> Less(sorted[i], x)
      {
        k := k + 1;
      }
      LessFrom(sorted, x, k);
      InsertSorted(sorted, x, k);
      ElementsInsert(sorted, x, k);
      assert names[..n + 1] == names[..n] + [x];
      sorted := sorted[..k] + [x] + sorted[k..];
    }
    assert names[..|names|] == names;
    forall other: seq<string> | StrictlySorted(other) && Elements(other) == Elements(names) ensures other == sorted {
      SortedUnique(other, sorted);
    }
  }

  lemma ElementsInsert<T>(s: seq<T>, x: T, k: nat)
    requires k <= |s|
    ensures Elements(s[..k] + [x] + s[k..]) == Elements(s) + {x}
  {
    var t := s[..k] + [x] + s[k..];
    assert s == s[..k] + s[k..] && t[k] == x;
    forall y ensures y in t <==> y in s || y == x {
      if y in s {
        assert y in s[..k] || y in s[k..];
      }
    }
  }

  /** Everything from k on is greater than x. */
  lemma LessFrom(s: seq<string>, x: string, k: nat)
    requires StrictlySorted(s) && k <= |s| && x !in Elements(s) && (k == |s| || !Less(s[k], x))
    ensures forall i :: k <= i < |s| ==> Less(x, s[i])
  {
    forall i | k <= i < |s| ensures Less(x, s[i]) {
      assert s[k] in Elements(s);
      LessTotal(s[k], x);
      if k < i {
        LessTransitive(x, s[k], s[i]);
      }
    }
  }

  lemma InsertSorted(s: seq<string>, x: string, k: nat)
    requires StrictlySorted(s) && k <= |s|
    requires forall i :: 0 <= i < k ==> Less(s[i], x)
    requires forall i :: k <= i < |s| ==> Less(x, s[i])
    ensures StrictlySorted(s[..k] + [x] + s[k..])
  {
    var t := s[..k] + [x] + s[k..];
    forall i, j | 0 <= i < j < |t| ensures Less(t[i], t[j]) {
      assert t[i] == if i < k then s[i] else if i == k then x else s[i - 1];
      assert t[j] == if j < k then s[j] else if j == k then x else s[j - 1];
    }
  }
}
